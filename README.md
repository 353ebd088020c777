# Conditional visibility engine — a Dafny model

The modelled system is a browser tool for describing a set of named **variables**, each with
**values**. A variable or a value may carry a **condition**: a JSON object whose `allOf` or
`anyOf` key holds an array of nested conditions, and whose other keys map a variable name to a
required value name. The project models three parts of it.

- **The condition engine** (`js/modules/utils.js`):
  - `evaluateConditions` decides whether a condition holds for a selection state.
  - `analyzeConditions` flattens a condition into the variables it names and the values it
    allows for each of them.
  - `getValueRelationships` sorts every value of a schema into the *related* and
    *incompatible* sets of each variable.
- **The dynamic form** (`js/modules/dynamicUI.js`). It keeps the displayed schema and a map of
  picks, one string per variable. On every change it runs a pass over the variables in order.
  Each variable is shown or hidden. A shown enum variable gets a menu of the values whose
  conditions hold, and its pick is reset to `''` when that pick is no longer offered. A shown
  info variable gets one field per value that is not disqualified, with an "Applies when" hint.
- **The schema editor** (`js/modules/schemaBuilder.js`). It builds a schema document from its
  entries: variable entries, value entries, and condition groups of (variable, value) entries.
  It loads a document back into entries, and passes the built document to the form.

Modules:

- `wrappers.dfy`: `Option`, `Result`.
- `js_text.dfy`: `String.prototype.trim`, `includes` and `Array.prototype.join`.
- `conditions.dfy`: condition objects and the evaluator.
- `document.dfy`: the schema document.
- `analysis.dfy`: `analyzeConditions`.
- `relationships.dfy`: `getValueRelationships`.
- `dynamic_ui.dfy`: the form class `DynamicUI`.
- `schema_builder.dfy`: the editor class `SchemaBuilder`.

## How the source is modelled

**Conditions.**
- A condition object is a sequence of entries in key order: `AllOf(items)`, `AnyOf(items)` or
  `Leaf(variable, value)`. Key order matters: the hint text uses the last key, and the loader
  reads the first key.
- An entry's value as a JavaScript `Set` element is a `Token`: `undefined`, a string, or an
  array of nested conditions.
- A selection is either an array of names (`Many`) or the single string the dynamic form
  stores (`One`). On a string, `includes` is a substring test, and `evaluateConditions` keeps
  that behaviour.

**The relationship analysis.**
- Each loop of `getValueRelationships` and `analyzeConditions` is a method with loop
  invariants. Each is proved equal to a specification function: `Relationships` and
  `RequiredVars`/`AllowedValues`.
- Every `TypeError` the source can throw is the `TypeError` result. This covers:
  - a schema without `variables`;
  - a variable without `values`;
  - a selected value that names an unknown variable;
  - `.some` called on a non-empty string selection.

**The form.**
- `DynamicUI` is a class holding `currentSchema`, `currentSelections` and one `Block` per
  variable. A block records whether it is displayed and what it displays.
- Every method that changes state is proved to leave the fields equal to `PassFrom`. This is
  the pass, defined turn by turn over the variables.

**The editor.**
- `SchemaBuilder` is a class holding its variable entries, which stand for the editor's DOM
  blocks, and the `onSchemaChange` form.
- The build loops are methods proved equal to the specification functions.
- The loader is a function of the document. It stops at the first element whose load throws,
  and keeps the entry that element had already created, filled up to the point of the throw:
  a variable keeps its name, type and description and its values up to the one that threw; a
  value keeps its text and its group, filled in the same way; a group keeps its logic and its
  entries up to the one that threw; a condition entry stays blank.

Several behaviours of the code are modelled as written, although the names or the comments
suggest otherwise:

- A selection made in the dynamic form is a string. A leaf therefore holds when the required
  value is a substring of the pick, not when it is a member of a set
  (`StringSelectionIsSubstringTest`, `SubstringSelectionExample`).
- `getValueRelationships` throws on a non-empty string selection instead of treating it as a
  set (`StringSelectionThrows`).
- `allOf` takes precedence over `anyOf`, and either one makes the plain keys beside it
  irrelevant (`AllOfDecides`, `AnyOfDecides`).
- Under `anyOf`, the analysis reads each child's keys without recursing
  (`AnyOfChildNotRecursed`).
- The info-variable rule for hiding a value ("disqualified") is not `evaluateConditions`
  (`DisqualifyDiffersFromEvaluate`).

## Model

| member | source | states |
|---|---|---|
| Conditions.Evaluate | js/modules/utils.js:22-23 | a condition without keys (or an absent one) always holds |
| Conditions.AllOfIndex | js/modules/utils.js:25 | the index is that of the first `allOf` key, or past the end when there is none |
| Conditions.AnyOfIndex | js/modules/utils.js:29 | the index is that of the first `anyOf` key, or past the end when there is none |
| Conditions.AllOfDecides | js/modules/utils.js:25-27 | with an `allOf` key, the condition holds iff every element holds, whatever other keys say |
| Conditions.AnyOfDecides | js/modules/utils.js:29-31 | with an `anyOf` key and no `allOf`, the condition holds iff some element holds; an empty `anyOf` never holds |
| Conditions.LeafMapSemantics | js/modules/utils.js:33-40 | plain keys hold iff each named variable is unselected or its selection includes the required value |
| Conditions.UnselectedNeverBlocks | js/modules/utils.js:34-37 | a leaf on a variable with no (or an empty) selection holds |
| Conditions.NothingSelectedPasses | js/modules/utils.js:22-41 | with nothing selected, every condition without an empty `anyOf` holds |
| Conditions.NestedExample | js/modules/utils.js:25-31 | example, for one shape of condition: an `allOf` of an `anyOf` and a leaf holds iff one alternative is met and the leaf is met |
| Conditions.EitherExample | js/modules/utils.js:29-31 | example, for one shape of condition: an `anyOf` of two leaves on one variable holds iff either value is selected |
| Conditions.StringSelectionIsSubstringTest | js/modules/utils.js:34-39 | with a string selection, a leaf holds iff the string is empty or contains the required value |
| Conditions.SubstringSelectionExample | js/modules/utils.js:39 | example: the pick "Hardcore" satisfies `{Level: "Hard"}`, the array `["Hardcore"]` does not |
| JsText.TrimSpec | js/modules/schemaBuilder.js:269 | `trim` gives the infix of the text left after dropping the white space before and after it, and that infix neither starts nor ends with white space; it is empty iff the text is all white space; text without white space at either end is unchanged |
| JsText.TrimIdempotent | js/modules/schemaBuilder.js:269 | trimming twice is trimming once |
| JsText.IncludesAt | js/modules/utils.js:39 | `includes` on strings holds iff the needle occurs at some offset |
| JsText.Join | js/modules/dynamicUI.js:151-154 | `join` of a single part is that part, without any separator |
| JsText.JoinAppend | js/modules/dynamicUI.js:151-154 | `join` puts the separator between consecutive parts: one more part adds the separator and then that part |
| Analysis.Dedup | js/modules/utils.js:101 | insertion into a `Set`: no duplicates, and exactly the inserted names |
| Analysis.AnalysisConsistent | js/modules/utils.js:100-132 | each variable is required once; the required variables are exactly the keys of `allowedValues`; a value is allowed for `x` iff the walk reached the pair (`x`, value) |
| Analysis.RequiredAreKeys | js/modules/utils.js:120-126 | a variable is required iff it has an allowed-values entry |
| Analysis.AllOfConcatenates | js/modules/utils.js:105-107 | loop-step helper for `ProcessAllOf`: the pairs reached by the first `i + 1` children are those of the first `i` followed by those of child `i` |
| Analysis.AnyOfChildNotRecursed | js/modules/utils.js:108-117 | a nested group inside an `anyOf` child is recorded as a variable named `allOf` whose allowed value is the array |
| Analysis.RecordStep | js/modules/utils.js:120-126 | recording a pair appends a new key to `requiredVars` only if absent, and adds the value to its set |
| Analysis.AllowedStep | js/modules/utils.js:121-125 | recording a pair adds its value to that key's allowed set and changes no other key |
| Analysis.AnalyzeConditions | js/modules/utils.js:100-132 | the walk returns `RequiredVars` and `AllowedValues` of the condition, and they agree key for key |
| Analysis.ProcessCondition | js/modules/utils.js:104-128 | processing one condition records exactly the pairs it reaches |
| Analysis.ProcessAllOf | js/modules/utils.js:105-107 | the `allOf` loop records the children's pairs in order |
| Analysis.ProcessAnyOf | js/modules/utils.js:108-117 | the `anyOf` loop records each child's own entries |
| Analysis.RecordEntries | js/modules/utils.js:119-127 | the plain-key loop records each entry's pair in key order |
| Analysis.Record | js/modules/utils.js:120-126 | one `add` into the set and one into `allowedValues`, keeping the state in step with the recorded pairs |
| Relationships.FindIndex | js/modules/utils.js:66 | `find` returns the first variable with that name |
| Relationships.Find | js/modules/utils.js:66 | `find` gives a variable of the schema with that name, and nothing iff no variable has that name |
| Relationships.Relationships | js/modules/utils.js:43-98 | a result has one entry per variable name; a schema without `variables` throws |
| Relationships.GetValueRelationships | js/modules/utils.js:43-98 | the nested loops return `Relationships`: a throw, or each variable mapped to what every value contributes |
| Relationships.ProcessVariable | js/modules/utils.js:57-94 | one variable's values add their contributions, or the call throws because one of them throws |
| Relationships.InitRelationships | js/modules/utils.js:47-52 | every variable name starts with empty related and incompatible sets |
| Relationships.ProcessValue | js/modules/utils.js:58-93 | one value adds its selected-value effects and its own compatibility mark, or throws |
| Relationships.MarkSelected | js/modules/utils.js:63-78 | for a selected value, each named variable gains the allowed values as related and its other values as incompatible; an unknown variable throws |
| Relationships.MarkVariable | js/modules/utils.js:65-77 | one named variable gains exactly those two sets and no other entry changes |
| Relationships.MarkOutside | js/modules/utils.js:68-72 | the values of the variable whose names are not allowed |
| Relationships.IsCompatible | js/modules/utils.js:82-92 | `every` throws exactly when a string selection is reached before a failing variable; otherwise it decides compatibility |
| Relationships.CheckVariable | js/modules/utils.js:83-91 | a variable passes when unselected or some selected name is allowed; a non-empty string selection throws |
| Relationships.SomeAllowed | js/modules/utils.js:88-90 | `some` holds iff some selected name is allowed |
| Relationships.NotCompatibleAt | js/modules/utils.js:82-92 | the first failing variable makes `every` false without a throw |
| Relationships.RelsOfAdd | js/modules/utils.js:55-95 | processing one more value adds exactly its contributions |
| Relationships.MissingValuesThrows | js/modules/utils.js:55-57 | a variable without a `values` array makes the call throw, at `variable.values.forEach` |
| Relationships.UnknownReferenceThrows | js/modules/utils.js:66-76 | a selected value naming a variable the schema lacks makes the call throw |
| Relationships.SelectedValueEffects | js/modules/utils.js:63-78 | for a selected value, every allowed value is related and every other value of the named variable is incompatible |
| Relationships.OkResult | js/modules/utils.js:43-98 | a returned result is the map `Relationships` defines, and no value threw |
| Relationships.OwnCheckMarks | js/modules/utils.js:82-93 | a value failing its own compatibility check is incompatible under its variable |
| Relationships.CompatibleMeaning | js/modules/utils.js:82-92 | with array selections the check never throws, and fails iff some named variable has a selection none of whose names is allowed |
| Relationships.UnconditionedPasses | js/modules/utils.js:82-92 | a value without conditions names no variable and is compatible |
| Relationships.StringSelectionThrows | js/modules/utils.js:83-90 | a non-empty string pick for the first named variable makes the call throw |
| Relationships.OnlyAdds | js/modules/utils.js:55-95 | processing more values never removes anything from a related or incompatible set |
| Form.PassFrom | js/modules/dynamicUI.js:43-57 | a pass keeps one block per variable |
| Form.DynamicUI.constructor | js/modules/dynamicUI.js:4-9 | nothing displayed and nothing picked |
| Form.DynamicUI.RenderSchema | js/modules/dynamicUI.js:11-36 | the new schema is displayed, with the picks and blocks of a full pass from no picks over freshly created blocks |
| Form.DynamicUI.UpdateVisibleFields | js/modules/dynamicUI.js:38-41 | with a schema, the picks and blocks are those of one full pass; without one, nothing changes |
| Form.DynamicUI.ApplyConditionsToUI | js/modules/dynamicUI.js:43-57 | the loop leaves the picks and blocks of a full pass over the variables in order |
| Form.DynamicUI.Visit | js/modules/dynamicUI.js:44-55 | one turn: a hidden variable's block is hidden; a shown one is re-rendered as enum or info |
| Form.DynamicUI.RenderEnumVariableValues | js/modules/dynamicUI.js:59-87 | the block shows the menu of values whose conditions hold, and the pick is kept if offered and reset to `''` otherwise |
| Form.DynamicUI.RenderInfoVariable | js/modules/dynamicUI.js:89-169 | the block shows the info fields of the variable; the picks do not change |
| Form.DynamicUI.Choose | js/modules/dynamicUI.js:81-84 | a new pick is stored for that variable, then a full pass runs from it |
| Form.OfferedMenu | js/modules/dynamicUI.js:62-78 | the blank option then one option per value whose condition holds; `found` iff one is named like the current pick |
| Form.InfoFieldList | js/modules/dynamicUI.js:102-164 | one field per value that is not disqualified, in order (`FieldsOf`) |
| Form.SelectorInfo | js/modules/dynamicUI.js:145-157 | every key overwrites the hint, so the last key's group decides it |
| Form.PassBlocks | js/modules/dynamicUI.js:43-57 | after `n` turns, block `k < n` is rendered with the picks as they stood at turn `k`, and later blocks are untouched |
| Form.ShownAtTurn | js/modules/dynamicUI.js:46-52 | a block is displayed iff its condition holds for the picks at its turn; a displayed enum block holds that moment's menu |
| Form.OfferedExactly | js/modules/dynamicUI.js:64-73 | a value is offered iff it belongs to the variable and its condition holds |
| Form.OfferedInOrder | js/modules/dynamicUI.js:64-73 | offering keeps schema order |
| Form.MenuShape | js/modules/dynamicUI.js:62-73 | the menu is the blank option, then one option per offered value, in order |
| Form.EnumStepOutcome | js/modules/dynamicUI.js:75-78 | after an enum render the pick is `''` or offered; an offered pick is kept; no other pick changes |
| Form.PassOnlyClears | js/modules/dynamicUI.js:43-57 | a pass never invents a pick: each is what it was or `''` |
| Form.RenderedPicksBlank | js/modules/dynamicUI.js:11-17 | after `renderSchema` every pick is `''` |
| Form.SeenByLaterOnly | js/modules/dynamicUI.js:43-57 | what a variable sees depends only on the variables before it |
| Form.LaterStepsKeep | js/modules/dynamicUI.js:43-57 | with distinct names, later turns leave an earlier variable's pick alone |
| Form.EarlierStepsKeep | js/modules/dynamicUI.js:43-57 | with distinct names, earlier turns leave a later variable's pick alone |
| Form.FinalPickOffered | js/modules/dynamicUI.js:59-87 | with distinct names, a shown enum variable ends the pass with `''` or an option it was offered |
| Form.HiddenKeepsPick | js/modules/dynamicUI.js:46-48 | with distinct names, a variable hidden at its turn keeps the pick it had |
| Form.LeafKeysNeverDisqualify | js/modules/dynamicUI.js:104-143 | plain keys neither disqualify a value nor count as triggered |
| Form.AllOfNotDisqualifiedIsShown | js/modules/dynamicUI.js:104-121 | for a flat `allOf` group, a value that is not disqualified passes the evaluator |
| Form.AnyOfNotDisqualifiedIsShown | js/modules/dynamicUI.js:104-121 | for a flat non-empty `anyOf` group, a value that is not disqualified passes the evaluator |
| Form.FlatItemHolds | js/modules/dynamicUI.js:108-113 | a single-key element that does not conflict holds for the evaluator |
| Form.DisqualifyDiffersFromEvaluate | js/modules/dynamicUI.js:104-121 | example: the pick "Hardcore" shows `{allOf: [{Level: "Hard"}]}` to the evaluator yet disqualifies it |
| Form.NestedGroupHint | js/modules/dynamicUI.js:151-155 | a nested group prints its array as "[object Object]" in the hint |
| Form.FieldsExactly | js/modules/dynamicUI.js:102-164 | a field is shown iff some value is not disqualified and the field is built from it |
| Builder.VariablesJson | js/modules/schemaBuilder.js:263-266 | one variable object per entry, in order |
| Builder.SchemaJson | js/modules/schemaBuilder.js:259-261 | the built document holds the built variables, and the form renders it without throwing |
| Builder.ExtractGroupConditions | js/modules/schemaBuilder.js:321-338 | the loop builds the group's condition from its complete entries |
| Builder.BuildConditionsJSON | js/modules/schemaBuilder.js:308-319 | the loop builds `ConditionsJson` of the group list: `{}`, the one group's result, or an `allOf` of the non-empty results |
| Builder.BuildValues | js/modules/schemaBuilder.js:287-306 | the loop builds one value object per non-blank entry |
| Builder.BuildVariableObject | js/modules/schemaBuilder.js:268-285 | the loops build `VariableJson`: trimmed name and description, the type, values and conditions only when non-empty |
| Builder.PopulateConditions | js/modules/schemaBuilder.js:379-389 | loading conditions gives at most one group, and none iff the condition has no keys |
| Builder.SchemaBuilder.constructor | js/modules/schemaBuilder.js:4-13 | no entries, no form attached |
| Builder.SchemaBuilder.BuildSchema | js/modules/schemaBuilder.js:259-266 | the document built from the current entries |
| Builder.SchemaBuilder.TriggerSchemaUpdate | js/modules/schemaBuilder.js:30-35 | an attached form displays the built document after a full pass from no picks |
| Builder.SchemaBuilder.LoadSchemaIntoBuilder | js/modules/schemaBuilder.js:370-377 | all entries are replaced by one per variable loaded in order, stopping where a load throws; no `variables` leaves none |
| Builder.KeptAreLeaves | js/modules/schemaBuilder.js:326-334 | one single-key object per complete entry, trimmed, in order |
| Builder.CleanEntriesExactly | js/modules/schemaBuilder.js:326-334 | an entry is kept iff it is complete, and it is kept trimmed |
| Builder.CleanEntriesAppend | js/modules/schemaBuilder.js:326-334 | cleaning keeps entry order |
| Builder.CleanEntriesIdempotent | js/modules/schemaBuilder.js:326-334 | cleaning twice is cleaning once |
| Builder.GroupMeaning | js/modules/schemaBuilder.js:321-338 | a built `allOf` group holds iff every complete entry's leaf holds, an `anyOf` group iff some does |
| Builder.NonEmptyGroupsComplete | js/modules/schemaBuilder.js:312-316 | every group result with keys is collected |
| Builder.NonEmptyGroupsSound | js/modules/schemaBuilder.js:312-316 | every collected condition has keys and is some group's result |
| Builder.ConditionsMeaning | js/modules/schemaBuilder.js:308-319 | the groups of an entry are ANDed |
| Builder.GroupWellFormed | js/modules/schemaBuilder.js:336-337 | a built group has only `allOf`/`anyOf` keys, and each element has a key |
| Builder.ConditionsWellFormed | js/modules/schemaBuilder.js:308-319 | built conditions have only `allOf`/`anyOf` keys, and each element has a key |
| Builder.ValuesExactly | js/modules/schemaBuilder.js:291-303 | a value object is built iff it comes from a non-blank entry |
| Builder.BuiltVariablesRenderable | js/modules/schemaBuilder.js:268-306 | every built variable renders: info values carry descriptions and well-formed conditions |
| Builder.LoadEachExactly | js/modules/schemaBuilder.js:374-376 | loading keeps one entry per element reached, succeeds iff every element loads, and otherwise stops after the first failure |
| Builder.LoadEachStops | js/modules/schemaBuilder.js:374-376 | once a load throws, later elements are never visited |
| Builder.LoadEachAllOk | js/modules/schemaBuilder.js:374-376 | when every element loads, there is one entry per element, in order |
| Builder.LoadKept | js/modules/schemaBuilder.js:187-194 | loading a built group's elements gives back its complete entries, trimmed |
| Builder.GroupRoundTrip | js/modules/schemaBuilder.js:379-389 | a built group, loaded again, keeps its logic and its complete entries |
| Builder.NestedGroupsFlattened | js/modules/schemaBuilder.js:379-389 | with two or more non-empty groups, loading gives one `allOf` group whose entries are named `allOf`/`anyOf` |
| Builder.PlainConditionsKeepFirstPair | js/modules/schemaBuilder.js:386-387 | conditions of plain keys load as one `allOf` group of their first pair alone |
| Builder.ConditionsRoundTrip | js/modules/schemaBuilder.js:308-338 | conditions of at most one group load back as that group's complete entries |
| Builder.ValueRoundTrip | js/modules/schemaBuilder.js:146-168 | a built value loads back with its trimmed text and its groups |
| Builder.ValuesRoundTrip | js/modules/schemaBuilder.js:287-306 | built values load back as the non-blank entries, normalised, in order |
| Builder.VariableRoundTrip | js/modules/schemaBuilder.js:120-144 | saving then loading an entry gives it back normalised: names trimmed, blank values and incomplete entries dropped, a missing type read as `enum` |
| Builder.SchemaRoundTrip | js/modules/schemaBuilder.js:370-377 | saving then loading entries gives them all back, normalised, in order |
| Builder.NormGroupsSameConditions | js/modules/schemaBuilder.js:308-319 | building the loaded groups again gives the same conditions |
| Builder.NormValuesSameValues | js/modules/schemaBuilder.js:287-306 | building the loaded values again gives the same value objects |
| Builder.SaveLoadSave | js/modules/schemaBuilder.js:268-285 | save, load, save: the second document equals the first |

## Left out

- DOM construction (`createElement`, `innerHTML`, styling, the summary and collapse panels) is
  not modelled. Neither are the static header and description elements of a variable block.
  The model keeps only what a block shows: displayed or not, a menu, or info fields.
- File download and upload, `JSON.parse`, `alert` and `console` are left out because they are
  I/O. A parsed document is the `Schema` parameter of `LoadSchemaIntoBuilder`. The sequencing
  in `handleUpload` (load, then `triggerSchemaUpdate`) is left to the caller.
- `js/main.js` wiring is the `onSchemaChange` field of `SchemaBuilder`.
- The editor's variable and value `<select>` options are not modelled.
  `getCurrentBuilderVariables`, `extractValuesForVars` and the listener that refills a value
  select are among them. A condition entry is modelled as the (variable, value) text it holds.
- The add-variable, add-value and add-group buttons are not modelled because they only create
  blank entries.
- An `allOf`/`anyOf` key holding something other than an array is not representable. A plain
  key named `allOf` or `anyOf` is a leaf in the model, though JavaScript would treat it as a
  group.
- Keys inherited from `Object.prototype` are not modelled.
- Duplicate keys are not modelled: a JavaScript object holds each key once. A condition in the
  model may repeat a key. The `allOf`/`anyOf` lookups then take the first such entry, and the
  plain-key branch of `Evaluate` requires every leaf, repeats included.
- The identity of arrays placed in a `Set` is not modelled: two equal arrays are one `Token`.
- An empty condition object `{}` is identified with an absent one, and `''` with an absent
  description or type. For `''` and an absent property, every use in the source tests
  truthiness. An empty object `{}` is truthy, so `if (value.conditions)` takes its branch
  (utils.js:59), but nothing changes: `analyzeConditions({})` records no variable, and
  `every` over no variables is true.
- A variable without a name is modelled with the name `''`. The editor reads it that way
  (`data.name || ''`, schemaBuilder.js:125). `getValueRelationships` and the form use the
  name as a property key instead (utils.js:48, 63; dynamicUI.js:64, 76, 82). There a missing
  name is the key `"undefined"`, which the model does not distinguish.
- Form.DynamicUI.RenderSchema: requires `Renderable`, which is stronger than "the pass does
  not throw". It asks for a `variables` array and, for every value of every info variable, a
  description, keyed elements in its `allOf`/`anyOf` arrays (`ItemsKeyed`) and no plain keys
  (`NoLeafKeys`). In the source each of these matters only for some documents:
  - a missing description throws at `appendChild(undefined)` (dynamicUI.js:124-126, utils.js:12-16);
  - a keyless array element throws at the destructuring of `Object.entries(cond)[0]`
    (dynamicUI.js:108, 115, 133, 138, 152);
  - a plain key throws at `condArray.map` on its string (dynamicUI.js:151), since
    `isFullyTriggered` is then false (dynamicUI.js:141, 145).
  The source reaches none of these for an info variable hidden at its turn (dynamicUI.js:46-48),
  nor for a value that is disqualified (dynamicUI.js:123). `ItemsKeyed` also demands keys on
  elements that `some`/`every` would short-circuit past. So `Renderable` excludes documents
  the source renders without error, where one of these defects sits only in (a) an info
  variable hidden at its turn, (b) a disqualified value, or (c) an element that is
  short-circuited past. The documents that make the source throw midway are
  not modelled either. The only caller, `TriggerSchemaUpdate`, passes `SchemaJson`, proved
  renderable.
- Form.DynamicUI.ApplyConditionsToUI: requires the same `Renderable`, with the same excess as
  `RenderSchema`.
- Form.DynamicUI.Choose: any string may be chosen. The menu's options are not enforced.
- Builder.PopulateConditions: when a group's first key is not `allOf` or `anyOf`, the page
  assigns that key to the logic `<select>` (schemaBuilder.js:189). No option matches, so the
  select's value becomes `''`. The model keeps `AllOfLogic` there instead. This has no effect
  on building, since the load then throws before the group gets any entry.
- Builder.VariableRoundTrip: proved only for group lists of at most one group.
  `NestedGroupsFlattened` shows what loading loses for more.
- Builder.SchemaRoundTrip: same restriction as `VariableRoundTrip`.
- Builder.GroupRoundTrip: a condition entry is modelled as the text it was loaded with. In
  the page that text is assigned to two `<select>`s (schemaBuilder.js:234-238). Their options
  are the variables already in the editor when the entry is created, and the non-blank values
  of the chosen variable if it is an enum (schemaBuilder.js:201-231, 242-257). An entry that
  names a variable loaded later, an info variable, or a value not among those options
  therefore reads back as `''`. The next save drops it (schemaBuilder.js:326-334). The round
  trip does not capture that loss.
- Builder.ConditionsRoundTrip: the same loss of entries whose text is not among the
  `<select>` options as `GroupRoundTrip`.
- Builder.ValueRoundTrip: the same loss of condition entries as `GroupRoundTrip`.
- Builder.ValuesRoundTrip: the same loss of condition entries as `GroupRoundTrip`.
- Builder.VariableRoundTrip: the same loss of condition entries as `GroupRoundTrip`.
- Builder.SchemaRoundTrip: the same loss of condition entries as `GroupRoundTrip`.
- Builder.SaveLoadSave: the same loss of condition entries as `GroupRoundTrip`. A second save
  can therefore drop entries the first one kept.
- Builder.SchemaJson: an entry naming a variable called `allOf` or `anyOf` is built as a plain
  key inside the group, as in `{allOf: [{allOf: "v"}]}`. In the model that key is a leaf, so
  the document counts as renderable. In the page `evaluateConditions` reads it as a group and
  throws on the string (utils.js:25-26).
