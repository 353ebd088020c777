/**
 * The schema editor (js/modules/schemaBuilder.js) over an abstract editor
 * state: the entries of the variables, values and condition groups that
 * the editor's form fields hold. Building turns that state into a schema
 * document; loading turns a document back into editor state.
 */
module Builder {
  import opened Wrappers
  import opened Conditions
  import opened Document
  import JsText
  import Form

  /** The value of a group's logic menu. */
  datatype Logic = AllOfLogic | AnyOfLogic

  /** A condition entry: the chosen variable and value, as stored. */
  datatype CondEntry = CondEntry(variable: string, value: string)

  /** A condition group: its logic and its entries, in order. */
  datatype Group = Group(logic: Logic, entries: seq<CondEntry>)

  /** A value entry: its name or description text, and its condition groups. */
  datatype ValueEntry = ValueEntry(text: string, groups: seq<Group>)

  /** A variable entry: name, type menu value, description, values and condition groups. */
  datatype VariableEntry = VariableEntry(
    name: string,
    vtype: string,
    description: string,
    values: seq<ValueEntry>,
    groups: seq<Group>)

  // ---------------------------------------------------------------------
  // Building the document.

  /** Both trimmed fields of an entry are non-empty. */
  predicate Complete(e: CondEntry) {
    JsText.Trim(e.variable) != "" && JsText.Trim(e.value) != ""
  }

  /** An entry with both fields trimmed. */
  function Cleaned(e: CondEntry): CondEntry {
    CondEntry(JsText.Trim(e.variable), JsText.Trim(e.value))
  }

  /** The complete entries, trimmed, in order. */
  function CleanEntries(es: seq<CondEntry>): seq<CondEntry> {
    if es == [] then []
    else CleanEntries(es[..|es| - 1]) + (if Complete(es[|es| - 1]) then [Cleaned(es[|es| - 1])] else [])
  }

  /** `{[variable]: value}`. */
  function LeafOf(e: CondEntry): Cond {
    Cond([Leaf(e.variable, e.value)])
  }

  /** The `groupArray` of `extractGroupConditions`: one object per complete entry, in order. */
  function Kept(es: seq<CondEntry>): seq<Cond> {
    if es == [] then []
    else Kept(es[..|es| - 1]) + (if Complete(es[|es| - 1]) then [LeafOf(Cleaned(es[|es| - 1]))] else [])
  }

  /** `extractGroupConditions`: `{}` when no entry is complete, else `{[logic]: groupArray}`. */
  function GroupConditions(g: Group): Cond {
    var kept := Kept(g.entries);
    if kept == [] then Empty
    else Cond([if g.logic == AllOfLogic then AllOf(kept) else AnyOf(kept)])
  }

  /** The groups' conditions that have keys, in order. */
  function NonEmptyGroups(gs: seq<Group>): seq<Cond> {
    if gs == [] then []
    else
      var c := GroupConditions(gs[|gs| - 1]);
      NonEmptyGroups(gs[..|gs| - 1]) + (if c.entries != [] then [c] else [])
  }

  /**
   * `buildConditionsJSON`: `{}` for no group, the group's own result for
   * one, and for more an `allOf` of the non-empty results (`{}` if none).
   */
  function ConditionsJson(gs: seq<Group>): Cond {
    if |gs| == 0 then Empty
    else if |gs| == 1 then GroupConditions(gs[0])
    else
      var ne := NonEmptyGroups(gs);
      if ne == [] then Empty else Cond([AllOf(ne)])
  }

  /** The value object built from a value entry: `{name}` for enum, `{description}` otherwise. */
  function ValueOf(v: ValueEntry, vtype: string): Value {
    var text := JsText.Trim(v.text);
    Value(if vtype == "enum" then Some(text) else None,
          if vtype == "enum" then None else Some(text),
          ConditionsJson(v.groups))
  }

  /** `buildValues`: one value object per entry whose trimmed text is non-empty, in order. */
  function ValuesJson(vs: seq<ValueEntry>, vtype: string): seq<Value> {
    if vs == [] then []
    else
      var v := vs[|vs| - 1];
      ValuesJson(vs[..|vs| - 1], vtype) + (if JsText.Trim(v.text) != "" then [ValueOf(v, vtype)] else [])
  }

  /** `buildVariableObject`: `values` only when some value is built. */
  function VariableJson(u: VariableEntry): Variable {
    var vals := ValuesJson(u.values, u.vtype);
    Variable(JsText.Trim(u.name), u.vtype, JsText.Trim(u.description), ConditionsJson(u.groups),
             if vals == [] then None else Some(vals))
  }

  /** `buildSchemaVariables`: one variable object per entry, in order. */
  function VariablesJson(us: seq<VariableEntry>): (r: seq<Variable>)
    ensures |r| == |us|
    ensures forall k | 0 <= k < |us| :: r[k] == VariableJson(us[k])
  {
    if us == [] then [] else VariablesJson(us[..|us| - 1]) + [VariableJson(us[|us| - 1])]
  }

  /** `buildSchema`: the document built from the editor is one the form renders without throwing. */
  function SchemaJson(us: seq<VariableEntry>): (s: Schema)
    ensures s.variables == Some(VariablesJson(us))
    ensures Form.Renderable(s)
  {
    BuiltVariablesRenderable(us);
    Schema(Some(VariablesJson(us)))
  }

  /** The `forEach` of `extractGroupConditions`, pushing one object per complete entry. */
  method ExtractGroupConditions(g: Group) returns (c: Cond)
    ensures c == GroupConditions(g)
  {
    var groupArray := [];
    for k := 0 to |g.entries|
      invariant groupArray == Kept(g.entries[..k])
    {
      assert g.entries[..k + 1][..k] == g.entries[..k];
      var e := g.entries[k];
      var x, v := JsText.Trim(e.variable), JsText.Trim(e.value);
      if x != "" && v != "" {
        groupArray := groupArray + [Cond([Leaf(x, v)])];
      }
    }
    assert g.entries[..|g.entries|] == g.entries;
    if groupArray == [] {
      return Empty;
    }
    c := Cond([if g.logic == AllOfLogic then AllOf(groupArray) else AnyOf(groupArray)]);
  }

  /** `buildConditionsJSON`, collecting the non-empty group results of several groups. */
  method BuildConditionsJSON(gs: seq<Group>) returns (c: Cond)
    ensures c == ConditionsJson(gs)
  {
    if |gs| == 0 {
      return Empty;
    }
    if |gs| == 1 {
      c := ExtractGroupConditions(gs[0]);
      return;
    }
    var allGroups := [];
    for k := 0 to |gs|
      invariant allGroups == NonEmptyGroups(gs[..k])
    {
      assert gs[..k + 1][..k] == gs[..k];
      var g := ExtractGroupConditions(gs[k]);
      if g.entries != [] {
        allGroups := allGroups + [g];
      }
    }
    assert gs[..|gs|] == gs;
    c := if allGroups != [] then Cond([AllOf(allGroups)]) else Empty;
  }

  /** `buildValues`: skips blank entries, pushes one value object per other entry. */
  method BuildValues(vs: seq<ValueEntry>, vtype: string) returns (values: seq<Value>)
    ensures values == ValuesJson(vs, vtype)
  {
    values := [];
    for k := 0 to |vs|
      invariant values == ValuesJson(vs[..k], vtype)
    {
      assert vs[..k + 1][..k] == vs[..k];
      var name := JsText.Trim(vs[k].text);
      if name != "" {
        var conditions := BuildConditionsJSON(vs[k].groups);
        var w := if vtype == "enum" then Value(Some(name), None, conditions) else Value(None, Some(name), conditions);
        values := values + [w];
      }
    }
    assert vs[..|vs|] == vs;
  }

  /** `buildVariableObject`: name and type always, the other properties when non-empty. */
  method BuildVariableObject(u: VariableEntry) returns (r: Variable)
    ensures r == VariableJson(u)
  {
    var values := BuildValues(u.values, u.vtype);
    var conditions := BuildConditionsJSON(u.groups);
    r := Variable(JsText.Trim(u.name), u.vtype, JsText.Trim(u.description), conditions,
                  if |values| > 0 then Some(values) else None);
  }

  // ---------------------------------------------------------------------
  // Loading a document.

  /**
   * Loading visits `xs` in order and stops at the first element whose
   * load throws; the entry that element created so far stays in place.
   */
  function LoadEach<X, Y>(xs: seq<X>, f: X -> (Y, bool)): (seq<Y>, bool) {
    if xs == [] then ([], true)
    else
      var (ys, ok) := LoadEach(xs[..|xs| - 1], f);
      if !ok then (ys, false)
      else
        var (y, ok') := f(xs[|xs| - 1]);
        (ys + [y], ok')
  }

  /**
   * `setupConditionEntryListeners` with entry data: the element's first
   * key and that key's value as a string. An element without keys makes
   * `Object.entries(...)[0]` undefined and the destructuring throw, after
   * the blank entry was added.
   */
  function EntryOf(item: Cond): (CondEntry, bool) {
    if item.entries == [] then (CondEntry("", ""), false)
    else (CondEntry(item.entries[0].Key(), TokenString(TokenOf(item.entries[0]))), true)
  }

  /**
   * `addConditionGroupUI` with group data: the logic is the first key, and
   * its array gives one entry per element. A first key holding a string
   * throws at `forEach`, leaving the group without entries.
   */
  function GroupOf(c: Cond): (Group, bool)
    requires c.entries != []
  {
    match c.entries[0]
    case AllOf(items) =>
      var (es, ok) := LoadEach(items, EntryOf);
      (Group(AllOfLogic, es), ok)
    case AnyOf(items) =>
      var (es, ok) := LoadEach(items, EntryOf);
      (Group(AnyOfLogic, es), ok)
    case Leaf(_, _) => (Group(AllOfLogic, []), false)
  }

  /**
   * `populateConditions`: nothing for a condition without keys; one group
   * from the condition itself when it has `allOf` or `anyOf`; otherwise one
   * group from `{allOf: [conditions]}`.
   */
  function PopulateConditions(c: Cond): (r: (seq<Group>, bool))
    ensures |r.0| <= 1
    ensures c.entries == [] <==> r.0 == []
  {
    if c.entries == [] then ([], true)
    else if HasAllOf(c) || HasAnyOf(c) then
      var (g, ok) := GroupOf(c);
      ([g], ok)
    else
      var (g, ok) := GroupOf(Cond([AllOf([c])]));
      ([g], ok)
  }

  /** `valueData.name || valueData.description || ''`. */
  function ValueText(w: Value): string {
    if w.name.Some? && w.name.value != "" then w.name.value
    else if w.description.Some? && w.description.value != "" then w.description.value
    else ""
  }

  /** `addValueUI` with value data: the text, then the value's condition groups. */
  function LoadValue(w: Value): (ValueEntry, bool) {
    var (gs, ok) := PopulateConditions(w.conditions);
    (ValueEntry(ValueText(w), gs), ok)
  }

  /**
   * `populateVariableData`: name, description and type (`enum` when
   * missing), then the values in order, then the variable's condition
   * groups if every value loaded.
   */
  function LoadVariable(u: Variable): (VariableEntry, bool) {
    var vtype := if u.vtype != "" then u.vtype else "enum";
    var (vals, ok) := LoadEach(Vals(u), LoadValue);
    if !ok then (VariableEntry(u.name, vtype, u.description, vals, []), false)
    else
      var (gs, ok') := PopulateConditions(u.conditions);
      (VariableEntry(u.name, vtype, u.description, vals, gs), ok')
  }

  /** The editor: its variable entries, and the `onSchemaChange` target if one is set. */
  class SchemaBuilder {
    var variables: seq<VariableEntry>
    var onSchemaChange: Form.DynamicUI?

    /** `new SchemaBuilder()`: no entries, no listener. */
    constructor()
      ensures variables == [] && onSchemaChange == null
    {
      variables := [];
      onSchemaChange := null;
    }

    /** `buildSchema()`: one variable object per entry, in order. */
    method BuildSchema() returns (s: Schema)
      ensures s == SchemaJson(variables)
    {
      var built := [];
      for k := 0 to |variables|
        invariant built == VariablesJson(variables[..k])
      {
        assert variables[..k + 1][..k] == variables[..k];
        var v := BuildVariableObject(variables[k]);
        built := built + [v];
      }
      assert variables[..|variables|] == variables;
      s := Schema(Some(built));
    }

    /**
     * `triggerSchemaUpdate()`: when a listener is set, the form renders the
     * built schema from scratch.
     */
    method TriggerSchemaUpdate()
      modifies onSchemaChange
      ensures onSchemaChange != null ==>
                var s := SchemaJson(variables);
                var vars := Vars(s);
                onSchemaChange.currentSchema == Some(s) &&
                (onSchemaChange.currentSelections, onSchemaChange.blocks)
                  == Form.PassFrom(vars, map[], Form.Created(vars), |vars|)
    {
      if onSchemaChange != null {
        var schema := BuildSchema();
        onSchemaChange.RenderSchema(schema);
      }
    }

    /**
     * `loadSchemaIntoBuilder(json)`: removes every entry; with `variables`
     * present, loads one entry per variable in order, stopping where a
     * load throws (`ok` is false then).
     */
    method LoadSchemaIntoBuilder(json: Schema) returns (ok: bool)
      modifies this
      ensures onSchemaChange == old(onSchemaChange)
      ensures json.variables.None? ==> variables == [] && ok
      ensures json.variables.Some? ==> (variables, ok) == LoadEach(json.variables.value, LoadVariable)
    {
      variables := [];
      ok := true;
      if json.variables.None? {
        return;
      }
      var vs := json.variables.value;
      var i := 0;
      while i < |vs| && ok
        invariant 0 <= i <= |vs| && onSchemaChange == old(onSchemaChange)
        invariant (variables, ok) == LoadEach(vs[..i], LoadVariable)
      {
        assert vs[..i + 1][..i] == vs[..i];
        var (entry, loaded) := LoadVariable(vs[i]);
        variables := variables + [entry];
        ok := loaded;
        i := i + 1;
      }
      if ok {
        assert vs[..i] == vs;
      } else {
        LoadEachStops(vs[..i], vs[i..], LoadVariable);
        assert vs[..i] + vs[i..] == vs;
      }
    }
  }

  // ---------------------------------------------------------------------
  // Properties of building.

  /** The kept objects are the leaves of the complete entries, trimmed, in order. */
  lemma {:induction false} KeptAreLeaves(es: seq<CondEntry>)
    ensures |Kept(es)| == |CleanEntries(es)|
    ensures forall k | 0 <= k < |Kept(es)| :: Kept(es)[k] == LeafOf(CleanEntries(es)[k])
  {
    if es != [] {
      KeptAreLeaves(es[..|es| - 1]);
    }
  }

  /** An entry survives iff it is complete, and survives trimmed; order is kept. */
  lemma {:induction false} CleanEntriesExactly(es: seq<CondEntry>, e: CondEntry)
    ensures e in CleanEntries(es) <==> exists d | d in es :: Complete(d) && e == Cleaned(d)
  {
    if es != [] {
      var init := es[..|es| - 1];
      CleanEntriesExactly(init, e);
      assert es == init + [es[|es| - 1]];
    }
  }

  /** Cleaning keeps the order of entries: it distributes over concatenation. */
  lemma {:induction false} CleanEntriesAppend(a: seq<CondEntry>, b: seq<CondEntry>)
    ensures CleanEntries(a + b) == CleanEntries(a) + CleanEntries(b)
    decreases |b|
  {
    if b == [] {
      assert a + b == a;
    } else {
      var init := b[..|b| - 1];
      CleanEntriesAppend(a, init);
      assert (a + b)[..|a + b| - 1] == a + init;
    }
  }

  /** Cleaning twice is cleaning once. */
  lemma {:induction false} CleanEntriesIdempotent(es: seq<CondEntry>)
    ensures CleanEntries(CleanEntries(es)) == CleanEntries(es)
  {
    if es != [] {
      var init := es[..|es| - 1];
      var last := es[|es| - 1];
      CleanEntriesIdempotent(init);
      if Complete(last) {
        var c := Cleaned(last);
        JsText.TrimIdempotent(last.variable);
        JsText.TrimIdempotent(last.value);
        assert Complete(c) && Cleaned(c) == c;
        assert [c][..|[c]| - 1] == [];
        assert CleanEntries([c]) == [c];
        CleanEntriesAppend(CleanEntries(init), [c]);
        assert CleanEntries(es) == CleanEntries(init) + [c];
      } else {
        assert CleanEntries(es) == CleanEntries(init) + [];
        assert CleanEntries(init) + [] == CleanEntries(init);
      }
    }
  }

  /**
   * A built group holds for a selection iff, for `allOf`, every complete
   * entry's leaf holds, and for `anyOf`, some does (or no entry is complete).
   */
  lemma GroupMeaning(g: Group, sel: Selections)
    ensures var es := CleanEntries(g.entries);
            Evaluate(GroupConditions(g), sel) <==>
              if g.logic == AllOfLogic then forall k | 0 <= k < |es| :: LeafHolds(sel, es[k].variable, es[k].value)
              else es == [] || exists k | 0 <= k < |es| :: LeafHolds(sel, es[k].variable, es[k].value)
  {
    var es := CleanEntries(g.entries);
    var kept := Kept(g.entries);
    KeptAreLeaves(g.entries);
    forall k | 0 <= k < |kept|
      ensures Evaluate(kept[k], sel) <==> LeafHolds(sel, es[k].variable, es[k].value)
    {
      LeafMapSemantics(kept[k].entries, sel);
    }
    if kept != [] {
      if g.logic == AllOfLogic {
        AllOfDecides([], kept, [], sel);
      } else {
        AnyOfDecides([], kept, [], sel);
      }
    }
  }

  /** Every group result with keys is collected. */
  lemma {:induction false} NonEmptyGroupsComplete(gs: seq<Group>, k: nat)
    requires k < |gs| && GroupConditions(gs[k]).entries != []
    ensures GroupConditions(gs[k]) in NonEmptyGroups(gs)
  {
    var init := gs[..|gs| - 1];
    if k < |init| {
      assert init[k] == gs[k];
      NonEmptyGroupsComplete(init, k);
    }
  }

  /** Every collected condition has keys and is the result of some group. */
  lemma {:induction false} NonEmptyGroupsSound(gs: seq<Group>, j: nat)
    requires j < |NonEmptyGroups(gs)|
    ensures NonEmptyGroups(gs)[j].entries != []
    ensures exists k | 0 <= k < |gs| :: NonEmptyGroups(gs)[j] == GroupConditions(gs[k])
  {
    var init := gs[..|gs| - 1];
    if j < |NonEmptyGroups(init)| {
      NonEmptyGroupsSound(init, j);
      var k :| 0 <= k < |init| && NonEmptyGroups(init)[j] == GroupConditions(init[k]);
      assert gs[k] == init[k];
    } else {
      assert NonEmptyGroups(gs)[j] == GroupConditions(gs[|gs| - 1]);
    }
  }

  /**
   * The groups of an entry are ANDed: the built condition holds iff every
   * group's own condition holds (a group with no complete entry holds).
   */
  lemma ConditionsMeaning(gs: seq<Group>, sel: Selections)
    ensures Evaluate(ConditionsJson(gs), sel) <==> forall k | 0 <= k < |gs| :: Evaluate(GroupConditions(gs[k]), sel)
  {
    if |gs| >= 2 {
      var ne := NonEmptyGroups(gs);
      forall k | 0 <= k < |gs| && GroupConditions(gs[k]).entries != []
        ensures GroupConditions(gs[k]) in ne
      {
        NonEmptyGroupsComplete(gs, k);
      }
      forall j | 0 <= j < |ne|
        ensures exists k | 0 <= k < |gs| :: ne[j] == GroupConditions(gs[k])
      {
        NonEmptyGroupsSound(gs, j);
      }
      if ne != [] {
        AllOfDecides([], ne, [], sel);
      }
    }
  }

  /** A built group has only `allOf`/`anyOf` keys, and every element has a key. */
  lemma GroupWellFormed(g: Group)
    ensures Form.ItemsKeyed(GroupConditions(g)) && Form.NoLeafKeys(GroupConditions(g))
  {
    KeptAreLeaves(g.entries);
  }

  /** Built conditions have only `allOf`/`anyOf` keys, and every element has a key. */
  lemma ConditionsWellFormed(gs: seq<Group>)
    ensures Form.ItemsKeyed(ConditionsJson(gs)) && Form.NoLeafKeys(ConditionsJson(gs))
  {
    if |gs| == 1 {
      GroupWellFormed(gs[0]);
    } else if |gs| >= 2 {
      var ne := NonEmptyGroups(gs);
      forall j | 0 <= j < |ne| ensures ne[j].entries != [] {
        NonEmptyGroupsSound(gs, j);
      }
    }
  }

  /** Each built value comes from a non-blank entry, built by `ValueOf`, and vice versa. */
  lemma {:induction false} ValuesExactly(vs: seq<ValueEntry>, vtype: string, w: Value)
    ensures w in ValuesJson(vs, vtype) <==> exists v | v in vs :: JsText.Trim(v.text) != "" && w == ValueOf(v, vtype)
  {
    if vs != [] {
      var init := vs[..|vs| - 1];
      ValuesExactly(init, vtype, w);
      assert vs == init + [vs[|vs| - 1]];
    }
  }

  /** Every built variable is ready to render: info values carry descriptions and well-formed groups. */
  lemma BuiltVariablesRenderable(us: seq<VariableEntry>)
    ensures Form.AllReady(VariablesJson(us))
  {
    var vars := VariablesJson(us);
    forall k | 0 <= k < |vars| ensures Form.InfoReady(vars[k]) {
      var u := us[k];
      if !IsEnum(vars[k]) {
        forall w | w in Vals(vars[k]) ensures Form.InfoValueOk(w) {
          ValuesExactly(u.values, u.vtype, w);
          var v :| v in u.values && JsText.Trim(v.text) != "" && w == ValueOf(v, u.vtype);
          ConditionsWellFormed(v.groups);
        }
      }
    }
  }

  // ---------------------------------------------------------------------
  // Properties of loading.

  /**
   * Loading keeps the entries of the elements it reached, in order; it
   * succeeds iff every element loads, and otherwise stops right after the
   * first element that fails.
   */
  lemma {:induction false} LoadEachExactly<X, Y>(xs: seq<X>, f: X -> (Y, bool))
    ensures var (ys, ok) := LoadEach(xs, f);
            |ys| <= |xs| &&
            (forall k | 0 <= k < |ys| :: ys[k] == f(xs[k]).0) &&
            (ok <==> forall k | 0 <= k < |xs| :: f(xs[k]).1) &&
            (ok ==> |ys| == |xs|) &&
            (!ok ==> 0 < |ys| && !f(xs[|ys| - 1]).1 && forall k | 0 <= k < |ys| - 1 :: f(xs[k]).1)
  {
    if xs != [] {
      var init := xs[..|xs| - 1];
      LoadEachExactly(init, f);
      var (ys, ok) := LoadEach(init, f);
      if !ok {
        assert !f(init[|ys| - 1]).1;
      }
    }
  }

  /** Once a load has thrown, later elements are never visited. */
  lemma {:induction false} LoadEachStops<X, Y>(xs: seq<X>, rest: seq<X>, f: X -> (Y, bool))
    requires !LoadEach(xs, f).1
    ensures LoadEach(xs + rest, f) == LoadEach(xs, f)
    decreases |rest|
  {
    if rest == [] {
      assert xs + rest == xs;
    } else {
      var init := rest[..|rest| - 1];
      LoadEachStops(xs, init, f);
      assert (xs + rest)[..|xs + rest| - 1] == xs + init;
    }
  }

  /** When every element loads, the result is one entry per element, in order. */
  lemma LoadEachAllOk<X, Y>(xs: seq<X>, f: X -> (Y, bool), ys: seq<Y>)
    requires |ys| == |xs|
    requires forall k | 0 <= k < |xs| :: f(xs[k]) == (ys[k], true)
    ensures LoadEach(xs, f) == (ys, true)
  {
    LoadEachExactly(xs, f);
    var r := LoadEach(xs, f);
    assert r.0 == ys;
  }

  /** Loading a built group's elements gives back its complete entries, trimmed. */
  lemma LoadKept(es: seq<CondEntry>)
    ensures LoadEach(Kept(es), EntryOf) == (CleanEntries(es), true)
  {
    KeptAreLeaves(es);
    LoadEachAllOk(Kept(es), EntryOf, CleanEntries(es));
  }

  /** A group, built and loaded again, keeps its logic and its complete entries, trimmed. */
  lemma GroupRoundTrip(g: Group)
    ensures PopulateConditions(GroupConditions(g))
            == (if CleanEntries(g.entries) == [] then [] else [Group(g.logic, CleanEntries(g.entries))], true)
  {
    KeptAreLeaves(g.entries);
    LoadKept(g.entries);
    var c := GroupConditions(g);
    if c.entries != [] {
      assert c.entries[0] == (if g.logic == AllOfLogic then AllOf(Kept(g.entries)) else AnyOf(Kept(g.entries)));
      assert HasAllOf(c) || HasAnyOf(c);
    }
  }

  /**
   * With two or more groups that have complete entries, loading the built
   * conditions gives one `allOf` group whose entries are named `allOf` or
   * `anyOf`: the nested groups are flattened and their entries lost.
   */
  lemma NestedGroupsFlattened(gs: seq<Group>)
    requires |gs| >= 2 && NonEmptyGroups(gs) != []
    ensures var (loaded, ok) := PopulateConditions(ConditionsJson(gs));
            ok && |loaded| == 1 && loaded[0].logic == AllOfLogic &&
            |loaded[0].entries| == |NonEmptyGroups(gs)| &&
            forall k | 0 <= k < |loaded[0].entries| :: loaded[0].entries[k].variable in {"allOf", "anyOf"}
  {
    var ne := NonEmptyGroups(gs);
    var c := Cond([AllOf(ne)]);
    assert ConditionsJson(gs) == c && HasAllOf(c);
    var ys := seq(|ne|, j requires 0 <= j < |ne| => EntryOf(ne[j]).0);
    forall j | 0 <= j < |ne|
      ensures EntryOf(ne[j]) == (ys[j], true) && ys[j].variable in {"allOf", "anyOf"}
    {
      NonEmptyGroupsSound(gs, j);
      var k :| 0 <= k < |gs| && ne[j] == GroupConditions(gs[k]);
      GroupLoadsAsKey(gs[k]);
    }
    LoadEachAllOk(ne, EntryOf, ys);
    assert PopulateConditions(c) == ([Group(AllOfLogic, ys)], true);
  }

  /** A built group with keys reads, as a single element, as its `allOf` or `anyOf` key. */
  lemma GroupLoadsAsKey(g: Group)
    requires GroupConditions(g).entries != []
    ensures EntryOf(GroupConditions(g)).1
    ensures EntryOf(GroupConditions(g)).0.variable in {"allOf", "anyOf"}
  {
  }

  /** Conditions made only of plain keys load as one `allOf` group of their first pair alone. */
  lemma PlainConditionsKeepFirstPair(c: Cond)
    requires c.entries != [] && forall k | 0 <= k < |c.entries| :: c.entries[k].Leaf?
    ensures PopulateConditions(c)
            == ([Group(AllOfLogic, [CondEntry(c.entries[0].variable, c.entries[0].required)])], true)
  {
    assert !HasAllOf(c) && !HasAnyOf(c);
    var wrapped := Cond([AllOf([c])]);
    assert [c][..|[c]| - 1] == [] && [c][|[c]| - 1] == c;
    assert EntryOf(c) == (CondEntry(c.entries[0].variable, c.entries[0].required), true);
    assert LoadEach([c][..|[c]| - 1], EntryOf) == ([], true);
    assert [] + [EntryOf(c).0] == [EntryOf(c).0];
  }

  /** At most one group, as the round trip needs. */
  predicate Simple(gs: seq<Group>) {
    |gs| <= 1
  }

  /** What loading a built group list gives: the complete entries of its one group, if any. */
  function NormGroups(gs: seq<Group>): seq<Group>
    requires Simple(gs)
  {
    if gs == [] || CleanEntries(gs[0].entries) == [] then []
    else [Group(gs[0].logic, CleanEntries(gs[0].entries))]
  }

  /** A value entry, normalised: text trimmed, groups normalised. */
  function NormValue(v: ValueEntry): ValueEntry
    requires Simple(v.groups)
  {
    ValueEntry(JsText.Trim(v.text), NormGroups(v.groups))
  }

  /** The non-blank value entries, normalised, in order. */
  function NormValues(vs: seq<ValueEntry>): seq<ValueEntry>
    requires forall v | v in vs :: Simple(v.groups)
  {
    if vs == [] then []
    else
      var v := vs[|vs| - 1];
      NormValues(vs[..|vs| - 1]) + (if JsText.Trim(v.text) != "" then [NormValue(v)] else [])
  }

  /** Every group list of a variable entry has at most one group. */
  predicate SimpleEntry(u: VariableEntry) {
    Simple(u.groups) && forall v | v in u.values :: Simple(v.groups)
  }

  /** A variable entry, normalised as a build followed by a load leaves it. */
  function NormVariable(u: VariableEntry): VariableEntry
    requires SimpleEntry(u)
  {
    VariableEntry(JsText.Trim(u.name), if u.vtype != "" then u.vtype else "enum",
                  JsText.Trim(u.description), NormValues(u.values), NormGroups(u.groups))
  }

  /** Built conditions of at most one group load back as that group's complete entries. */
  lemma ConditionsRoundTrip(gs: seq<Group>)
    requires Simple(gs)
    ensures PopulateConditions(ConditionsJson(gs)) == (NormGroups(gs), true)
  {
    if |gs| == 1 {
      GroupRoundTrip(gs[0]);
    }
  }

  /** A built value loads back with its trimmed text, as its name or its description. */
  lemma ValueRoundTrip(v: ValueEntry, vtype: string)
    requires Simple(v.groups) && JsText.Trim(v.text) != ""
    ensures LoadValue(ValueOf(v, vtype)) == (NormValue(v), true)
  {
    ConditionsRoundTrip(v.groups);
  }

  /** Built values load back as the non-blank entries, normalised, in order. */
  lemma {:induction false} ValuesRoundTrip(vs: seq<ValueEntry>, vtype: string)
    requires forall v | v in vs :: Simple(v.groups)
    ensures LoadEach(ValuesJson(vs, vtype), LoadValue) == (NormValues(vs), true)
  {
    if vs != [] {
      var init := vs[..|vs| - 1];
      var v := vs[|vs| - 1];
      assert v in vs;
      ValuesRoundTrip(init, vtype);
      var b0 := ValuesJson(init, vtype);
      if JsText.Trim(v.text) != "" {
        var built := b0 + [ValueOf(v, vtype)];
        assert built[..|built| - 1] == b0 && built[|built| - 1] == ValueOf(v, vtype);
        ValueRoundTrip(v, vtype);
        assert LoadEach(built, LoadValue) == (NormValues(init) + [NormValue(v)], true);
      } else {
        assert ValuesJson(vs, vtype) == b0 + [] == b0;
        assert NormValues(vs) == NormValues(init) + [] == NormValues(init);
      }
    }
  }

  /**
   * Saving then loading a variable entry whose group lists have at most one
   * group gives the entry back, normalised: names trimmed, blank values and
   * incomplete entries dropped, a missing type read as `enum`.
   */
  lemma VariableRoundTrip(u: VariableEntry)
    requires SimpleEntry(u)
    ensures LoadVariable(VariableJson(u)) == (NormVariable(u), true)
  {
    ValuesRoundTrip(u.values, u.vtype);
    ConditionsRoundTrip(u.groups);
  }

  /** Saving then loading such entries gives them all back, normalised, in order. */
  lemma SchemaRoundTrip(us: seq<VariableEntry>)
    requires forall u | u in us :: SimpleEntry(u)
    ensures var vars := VariablesJson(us);
            LoadEach(vars, LoadVariable) == (seq(|us|, k requires 0 <= k < |us| => NormVariable(us[k])), true)
  {
    var vars := VariablesJson(us);
    var norm := seq(|us|, k requires 0 <= k < |us| => NormVariable(us[k]));
    forall k | 0 <= k < |vars| ensures LoadVariable(vars[k]) == (norm[k], true) {
      assert us[k] in us;
      VariableRoundTrip(us[k]);
    }
    LoadEachAllOk(vars, LoadVariable, norm);
  }

  /** Building the loaded groups again gives the same conditions. */
  lemma NormGroupsSameConditions(gs: seq<Group>)
    requires Simple(gs)
    ensures ConditionsJson(NormGroups(gs)) == ConditionsJson(gs)
  {
    if |gs| == 1 {
      var es := gs[0].entries;
      CleanEntriesIdempotent(es);
      KeptAreLeaves(es);
      KeptAreLeaves(CleanEntries(es));
      if CleanEntries(es) != [] {
        assert Kept(CleanEntries(es)) == Kept(es);
        assert NormGroups(gs)[0] == Group(gs[0].logic, CleanEntries(es));
      }
    }
  }

  /** Building the loaded values again gives the same value objects. */
  lemma {:induction false} NormValuesSameValues(vs: seq<ValueEntry>, vtype: string)
    requires forall v | v in vs :: Simple(v.groups)
    ensures ValuesJson(NormValues(vs), vtype) == ValuesJson(vs, vtype)
  {
    if vs != [] {
      var init := vs[..|vs| - 1];
      var v := vs[|vs| - 1];
      assert v in vs;
      NormValuesSameValues(init, vtype);
      if JsText.Trim(v.text) != "" {
        var n := NormValues(init) + [NormValue(v)];
        assert n[..|n| - 1] == NormValues(init) && n[|n| - 1] == NormValue(v);
        JsText.TrimIdempotent(v.text);
        NormGroupsSameConditions(v.groups);
        assert ValueOf(NormValue(v), vtype) == ValueOf(v, vtype);
        assert ValuesJson(n, vtype) == ValuesJson(vs, vtype);
      } else {
        assert ValuesJson(vs, vtype) == ValuesJson(init, vtype) + [] == ValuesJson(init, vtype);
        assert NormValues(vs) == NormValues(init) + [] == NormValues(init);
      }
    }
  }

  /** Save, load, save: the second document equals the first. */
  lemma SaveLoadSave(u: VariableEntry)
    requires SimpleEntry(u) && u.vtype != ""
    ensures VariableJson(LoadVariable(VariableJson(u)).0) == VariableJson(u)
  {
    VariableRoundTrip(u);
    NormValuesSameValues(u.values, u.vtype);
    NormGroupsSameConditions(u.groups);
    JsText.TrimIdempotent(u.name);
    JsText.TrimIdempotent(u.description);
  }
}
