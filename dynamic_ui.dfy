/**
 * The dynamic form (js/modules/dynamicUI.js): one block per schema variable,
 * shown or hidden by its condition; enum variables offer a menu of their
 * currently allowed values, info variables a list of descriptions.
 *
 * The page is abstracted to the list of variable blocks: whether each is
 * displayed and what its menu or info fields hold.
 */
module Form {
  import opened Wrappers
  import opened Conditions
  import opened Document
  import JsText

  /** `currentSelections`: variable name to the single chosen string. */
  type Picks = map<string, string>

  /** One `<option>` of an enum menu: the leading blank one, or a value's name. */
  datatype MenuItem = Blank | Item(name: Option<string>)

  /** One info field: a description, and the "Applies when" line under it if any. */
  datatype InfoField = InfoField(text: string, hint: Option<string>)

  /** What a block holds: an enum's menu, or an info variable's fields. */
  datatype Content = Menu(options: seq<MenuItem>) | Fields(fields: seq<InfoField>)

  /** A variable block: whether it is displayed, and its content. */
  datatype Block = Block(shown: bool, content: Content)

  /** The picks as the evaluator sees them: every entry is a single string. */
  function AsChoices(sel: Picks): Selections {
    map x | x in sel :: One(sel[x])
  }

  /** `evaluateConditions(conditions || {}, this.currentSelections)`. */
  predicate Shown(c: Cond, sel: Picks) {
    Evaluate(c, AsChoices(sel))
  }

  // ---------------------------------------------------------------------
  // Enum menus.

  /** The values whose own conditions hold, in schema order. */
  function Offered(ws: seq<Value>, sel: Picks): seq<Value> {
    if ws == [] then []
    else Offered(ws[..|ws| - 1], sel) + (if Shown(ws[|ws| - 1].conditions, sel) then [ws[|ws| - 1]] else [])
  }

  /** One option per offered value. */
  function Items(ws: seq<Value>): seq<MenuItem>
  {
    seq(|ws|, k requires 0 <= k < |ws| => Item(ws[k].name))
  }

  /** The menu an enum variable is given: the blank option, then the offered values. */
  function MenuOf(u: Variable, sel: Picks): seq<MenuItem> {
    [Blank] + Items(Offered(Vals(u), sel))
  }

  /** `this.currentSelections[variable.name] || ''`. */
  function Current(sel: Picks, name: string): string {
    if name in sel then sel[name] else ""
  }

  /** Some offered value is named `n`. */
  predicate OfferedName(u: Variable, sel: Picks, n: string) {
    exists w | w in Offered(Vals(u), sel) :: w.name == Some(n)
  }

  /**
   * The picks after an enum variable is rendered: kept when its current
   * pick is offered, otherwise reset to `''`.
   */
  function EnumStep(u: Variable, sel: Picks): Picks {
    if OfferedName(u, sel, Current(sel, u.name)) then sel else sel[u.name := ""]
  }

  // ---------------------------------------------------------------------
  // Info fields.

  /** Every `allOf`/`anyOf` array holds only objects with at least one key. */
  predicate ItemsKeyed(c: Cond) {
    forall k | 0 <= k < |c.entries| :: !c.entries[k].Leaf? ==>
      forall j | 0 <= j < |c.entries[k].items| :: c.entries[k].items[j].entries != []
  }

  /** Only `allOf`/`anyOf` keys. */
  predicate NoLeafKeys(c: Cond) {
    forall k | 0 <= k < |c.entries| :: !c.entries[k].Leaf?
  }

  /** `Object.entries(cond)[0]`: the first key of an array element, and its value. */
  function FirstPair(item: Cond): (string, Token)
    requires item.entries != []
  {
    (item.entries[0].Key(), TokenOf(item.entries[0]))
  }

  /** `currentValue && currentValue !== requiredValue` for an element's first pair. */
  predicate Conflicts(item: Cond, sel: Picks)
    requires item.entries != []
  {
    var (x, t) := FirstPair(item);
    x in sel && sel[x] != "" && t != Str(sel[x])
  }

  /** `this.currentSelections[varName] === requiredValue` for an element's first pair. */
  predicate Matches(item: Cond, sel: Picks)
    requires item.entries != []
  {
    var (x, t) := FirstPair(item);
    x in sel && t == Str(sel[x])
  }

  /**
   * `isDisqualified`: some `allOf` array has a conflicting element, or some
   * non-empty `anyOf` array has only conflicting elements; other keys never
   * disqualify.
   */
  predicate Disqualified(c: Cond, sel: Picks)
    requires ItemsKeyed(c)
  {
    exists k | 0 <= k < |c.entries| ::
      match c.entries[k]
      case AllOf(items) => exists j | 0 <= j < |items| :: Conflicts(items[j], sel)
      case AnyOf(items) => |items| > 0 && forall j | 0 <= j < |items| :: Conflicts(items[j], sel)
      case Leaf(_, _) => false
  }

  /**
   * `isFullyTriggered`: every `allOf` element matches exactly, some `anyOf`
   * element matches exactly, and there is no other key.
   */
  predicate Triggered(c: Cond, sel: Picks)
    requires ItemsKeyed(c)
  {
    forall k | 0 <= k < |c.entries| ::
      match c.entries[k]
      case AllOf(items) => forall j | 0 <= j < |items| :: Matches(items[j], sel)
      case AnyOf(items) => exists j | 0 <= j < |items| :: Matches(items[j], sel)
      case Leaf(_, _) => false
  }

  /** `${varName} = ${value}` for an element's first pair. */
  function ItemText(item: Cond): string
    requires item.entries != []
  {
    FirstPair(item).0 + " = " + TokenString(FirstPair(item).1)
  }

  /** The text of one group: its elements joined by " AND " for `allOf`, " OR " otherwise. */
  function GroupText(e: Entry): string
    requires !e.Leaf?
    requires forall j | 0 <= j < |e.items| :: e.items[j].entries != []
  {
    JsText.Join(seq(|e.items|, j requires 0 <= j < |e.items| => ItemText(e.items[j])),
                if e.AllOf? then " AND " else " OR ")
  }

  /** What an info value needs for its field to be built: a description and well-formed groups. */
  predicate InfoValueOk(w: Value) {
    w.description.Some? && ItemsKeyed(w.conditions) && NoLeafKeys(w.conditions)
  }

  /** The field of a value that is not disqualified. */
  function FieldOf(w: Value, sel: Picks): InfoField
    requires InfoValueOk(w)
  {
    var c := w.conditions;
    InfoField(w.description.value,
              if c.entries != [] && !Triggered(c, sel)
              then Some("Applies when: " + GroupText(c.entries[|c.entries| - 1]))
              else None)
  }

  /** The fields of the values that are not disqualified, in order. */
  function FieldsOf(ws: seq<Value>, sel: Picks): seq<InfoField>
    requires forall w | w in ws :: InfoValueOk(w)
  {
    if ws == [] then []
    else
      var w := ws[|ws| - 1];
      assert w in ws && InfoValueOk(w);
      FieldsOf(ws[..|ws| - 1], sel) + (if Disqualified(w.conditions, sel) then [] else [FieldOf(w, sel)])
  }

  /** An info variable's fields: one per value not disqualified, else its own description. */
  function InfoFields(u: Variable, sel: Picks): seq<InfoField>
    requires forall w | w in Vals(u) :: InfoValueOk(w)
  {
    if |Vals(u)| > 0 then FieldsOf(Vals(u), sel)
    else if u.description != "" then [InfoField(u.description, None)]
    else []
  }

  // ---------------------------------------------------------------------
  // A pass over the variables.

  /**
   * A schema the form renders without throwing: its variables are present
   * and every info value has a description and well-formed groups.
   */
  predicate Renderable(s: Schema) {
    s.variables.Some? && AllReady(Vars(s))
  }

  /** Every variable of `vars` is ready to render. */
  predicate AllReady(vars: seq<Variable>) {
    forall k | 0 <= k < |vars| :: InfoReady(vars[k])
  }

  /** An enum variable, or an info variable whose values all have their fields built. */
  predicate InfoReady(u: Variable) {
    !IsEnum(u) ==> forall w | w in Vals(u) :: InfoValueOk(w)
  }

  /** What processing variable `u` does to the picks. */
  function Step(u: Variable, sel: Picks): Picks {
    if Shown(u.conditions, sel) && IsEnum(u) then EnumStep(u, sel) else sel
  }

  /** The picks after the first `n` variables of a pass. */
  function SelAfter(vars: seq<Variable>, sel: Picks, n: nat): Picks
    requires n <= |vars|
  {
    if n == 0 then sel else Step(vars[n - 1], SelAfter(vars, sel, n - 1))
  }

  /** Variable `u`'s block after its turn, given the picks it sees and its old block. */
  function Render(u: Variable, sel: Picks, old_: Block): Block
    requires InfoReady(u)
  {
    if !Shown(u.conditions, sel) then Block(false, old_.content)
    else if IsEnum(u) then Block(true, Menu(MenuOf(u, sel)))
    else Block(true, Fields(InfoFields(u, sel)))
  }

  /** The block `renderVariable` creates: displayed, with an empty menu or no fields. */
  function Fresh(u: Variable): Block {
    Block(true, if IsEnum(u) then Menu([]) else Fields([]))
  }

  /** The blocks `renderVariable` creates for `vars`, in order. */
  function Created(vars: seq<Variable>): seq<Block>
  {
    seq(|vars|, k requires 0 <= k < |vars| => Fresh(vars[k]))
  }

  /**
   * The picks and blocks after the first `n` turns of a pass that starts
   * from picks `sel` and blocks `bs`: block `k < n` is rendered with the
   * picks as they stood at turn `k`, later blocks are untouched.
   */
  function PassFrom(vars: seq<Variable>, sel: Picks, bs: seq<Block>, n: nat): (r: (Picks, seq<Block>))
    requires n <= |vars| == |bs| && AllReady(vars)
    ensures |r.1| == |bs|
  {
    if n == 0 then (sel, bs)
    else
      var (s, b) := PassFrom(vars, sel, bs, n - 1);
      (Step(vars[n - 1], s), b[n - 1 := Render(vars[n - 1], s, b[n - 1])])
  }

  /** The form: the schema on display, the picks, and the variable blocks. */
  class DynamicUI {
    var currentSchema: Option<Schema>
    var currentSelections: Picks
    var blocks: seq<Block>

    /** A displayed schema is renderable and has one block per variable. */
    predicate Valid()
      reads this
    {
      match currentSchema
      case None => blocks == []
      case Some(s) => Renderable(s) && |blocks| == |Vars(s)|
    }

    /** `new DynamicUI(...)`: nothing displayed, nothing picked. */
    constructor()
      ensures Valid()
      ensures currentSchema == None && currentSelections == map[] && blocks == []
    {
      currentSchema := None;
      currentSelections := map[];
      blocks := [];
    }

    /**
     * `renderSchema(schema)`: replaces the schema, clears the picks and the
     * blocks, creates one block per variable, then runs a pass.
     */
    method RenderSchema(schema: Schema)
      requires Renderable(schema)
      modifies this
      ensures Valid() && currentSchema == Some(schema)
      ensures (currentSelections, blocks) == PassFrom(Vars(schema), map[], Created(Vars(schema)), |Vars(schema)|)
    {
      var vars := Vars(schema);
      var created := [];
      for i := 0 to |vars|
        invariant created == Created(vars[..i])
      {
        assert vars[..i + 1] == vars[..i] + [vars[i]];
        created := created + [Fresh(vars[i])];
      }
      assert vars[..|vars|] == vars;
      currentSchema := Some(schema);
      currentSelections := map[];
      blocks := created;
      UpdateVisibleFields();
    }

    /** `updateVisibleFields()`: a pass, when a schema is displayed. */
    method UpdateVisibleFields()
      requires Valid()
      modifies this
      ensures Valid() && currentSchema == old(currentSchema)
      ensures currentSchema.None? ==> currentSelections == old(currentSelections) && blocks == old(blocks)
      ensures currentSchema.Some? ==>
                var vars := Vars(currentSchema.value);
                (currentSelections, blocks) == PassFrom(vars, old(currentSelections), old(blocks), |vars|)
    {
      if currentSchema.None? {
        return;
      }
      ApplyConditionsToUI();
    }

    /**
     * `applyConditionsToUI(variables, container)`: visits the variables in
     * order; each is shown iff its condition holds for the picks as they
     * stand at its turn, and a shown one is re-rendered.
     */
    method ApplyConditionsToUI()
      requires Valid() && currentSchema.Some?
      modifies this
      ensures Valid() && currentSchema == old(currentSchema)
      ensures var vars := Vars(currentSchema.value);
              (currentSelections, blocks) == PassFrom(vars, old(currentSelections), old(blocks), |vars|)
    {
      var vars := Vars(currentSchema.value);
      ghost var sel0 := currentSelections;
      ghost var blocks0 := blocks;
      for i := 0 to |vars|
        invariant Valid() && currentSchema == old(currentSchema)
        invariant (currentSelections, blocks) == PassFrom(vars, sel0, blocks0, i)
      {
        Visit(i);
      }
    }

    /** One turn of the pass: show or hide variable `i`, and re-render it when shown. */
    method Visit(i: nat)
      requires Valid() && currentSchema.Some? && i < |Vars(currentSchema.value)|
      modifies this
      ensures Valid() && currentSchema == old(currentSchema)
      ensures var u := Vars(currentSchema.value)[i];
              currentSelections == Step(u, old(currentSelections)) &&
              blocks == old(blocks)[i := Render(u, old(currentSelections), old(blocks)[i])]
    {
      var u := Vars(currentSchema.value)[i];
      assert u in Vars(currentSchema.value);
      if Shown(u.conditions, currentSelections) {
        if IsEnum(u) {
          RenderEnumVariableValues(i);
        } else {
          RenderInfoVariable(i);
        }
      } else {
        blocks := blocks[i := Block(false, blocks[i].content)];
      }
    }

    /**
     * `renderEnumVariableValues(block, variable)`: rebuilds the menu from the
     * values whose conditions hold, and resets the pick to `''` when it is
     * not among them.
     */
    method RenderEnumVariableValues(i: nat)
      requires Valid() && currentSchema.Some? && i < |Vars(currentSchema.value)|
      modifies this
      ensures Valid() && currentSchema == old(currentSchema)
      ensures var u := Vars(currentSchema.value)[i];
              currentSelections == EnumStep(u, old(currentSelections)) &&
              blocks == old(blocks)[i := Block(true, Menu(MenuOf(u, old(currentSelections))))]
    {
      var u := Vars(currentSchema.value)[i];
      var current := Current(currentSelections, u.name);
      var options, found := OfferedMenu(Vals(u), currentSelections, current);
      if !found {
        currentSelections := currentSelections[u.name := ""];
      }
      blocks := blocks[i := Block(true, Menu(options))];
    }

    /**
     * `renderInfoVariable(block, variable)`: one field per value that is not
     * disqualified, with an "Applies when" line while its conditions are not
     * fully met; with no values, the variable's own description.
     */
    method RenderInfoVariable(i: nat)
      requires Valid() && currentSchema.Some? && i < |Vars(currentSchema.value)|
      requires !IsEnum(Vars(currentSchema.value)[i])
      modifies this
      ensures Valid() && currentSchema == old(currentSchema) && currentSelections == old(currentSelections)
      ensures var u := Vars(currentSchema.value)[i];
              blocks == old(blocks)[i := Block(true, Fields(InfoFields(u, currentSelections)))]
    {
      var u := Vars(currentSchema.value)[i];
      assert u in Vars(currentSchema.value);
      var fields := [];
      if |Vals(u)| > 0 {
        fields := InfoFieldList(Vals(u), currentSelections);
      } else if u.description != "" {
        fields := [InfoField(u.description, None)];
      }
      blocks := blocks[i := Block(true, Fields(fields))];
    }

    /**
     * The `change` listener of variable `i`'s menu: stores the chosen option
     * value as that variable's pick and runs a pass.
     */
    method Choose(i: nat, value: string)
      requires Valid() && currentSchema.Some? && i < |Vars(currentSchema.value)|
      requires IsEnum(Vars(currentSchema.value)[i])
      modifies this
      ensures Valid() && currentSchema == old(currentSchema)
      ensures var vars := Vars(currentSchema.value);
              var picked := old(currentSelections)[vars[i].name := value];
              (currentSelections, blocks) == PassFrom(vars, picked, old(blocks), |vars|)
    {
      currentSelections := currentSelections[Vars(currentSchema.value)[i].name := value];
      UpdateVisibleFields();
    }
  }

  /**
   * The options loop of `renderEnumVariableValues`: the blank option, then
   * one per value whose condition holds; `found` tells whether one of them
   * is named `current`.
   */
  method OfferedMenu(ws: seq<Value>, sel: Picks, current: string) returns (options: seq<MenuItem>, found: bool)
    ensures options == [Blank] + Items(Offered(ws, sel))
    ensures found <==> exists w | w in Offered(ws, sel) :: w.name == Some(current)
  {
    options := [Blank];
    found := false;
    for k := 0 to |ws|
      invariant options == [Blank] + Items(Offered(ws[..k], sel))
      invariant found <==> exists w | w in Offered(ws[..k], sel) :: w.name == Some(current)
    {
      assert ws[..k + 1][..k] == ws[..k];
      if Shown(ws[k].conditions, sel) {
        options := options + [Item(ws[k].name)];
        if ws[k].name == Some(current) {
          found := true;
        }
      }
    }
    assert ws[..|ws|] == ws;
  }

  /**
   * The values loop of `renderInfoVariable`: a field for each value that is
   * not disqualified, with a hint while its conditions are not fully met.
   */
  method InfoFieldList(ws: seq<Value>, sel: Picks) returns (fields: seq<InfoField>)
    requires forall w | w in ws :: InfoValueOk(w)
    ensures fields == FieldsOf(ws, sel)
  {
    fields := [];
    for k := 0 to |ws|
      invariant fields == FieldsOf(ws[..k], sel)
    {
      assert ws[..k + 1][..k] == ws[..k];
      var w := ws[k];
      assert w in ws;
      if !Disqualified(w.conditions, sel) {
        var hint := None;
        if w.conditions.entries != [] && !Triggered(w.conditions, sel) {
          var text := SelectorInfo(w.conditions.entries);
          hint := Some(text);
        }
        fields := fields + [InfoField(w.description.value, hint)];
      }
    }
    assert ws[..|ws|] == ws;
  }

  /**
   * `Object.entries(conditions).forEach(...)` setting the hint text: each
   * key overwrites the text, so the last key's group decides it.
   */
  method SelectorInfo(es: seq<Entry>) returns (text: string)
    requires es != []
    requires forall k | 0 <= k < |es| :: !es[k].Leaf?
    requires forall k | 0 <= k < |es| :: forall j | 0 <= j < |es[k].items| :: es[k].items[j].entries != []
    ensures text == "Applies when: " + GroupText(es[|es| - 1])
  {
    text := "";
    for k := 0 to |es|
      invariant k > 0 ==> text == "Applies when: " + GroupText(es[k - 1])
    {
      text := "Applies when: " + GroupText(es[k]);
    }
  }

  // ---------------------------------------------------------------------
  // Properties.

  /** Block `k` rendered with the picks as they stand at turn `k` of a pass from `sel`. */
  function RenderedAt(vars: seq<Variable>, sel: Picks, bs: seq<Block>, k: nat): Block
    requires k < |vars| == |bs| && AllReady(vars)
  {
    Render(vars[k], SelAfter(vars, sel, k), bs[k])
  }

  /**
   * A pass visits the variables in order: after `n` turns the picks are
   * those the first `n` steps produce, block `k < n` is rendered with the
   * picks as they stood at turn `k`, and later blocks are untouched.
   */
  lemma {:induction false} PassBlocks(vars: seq<Variable>, sel: Picks, bs: seq<Block>, n: nat)
    requires n <= |vars| == |bs| && AllReady(vars)
    ensures PassFrom(vars, sel, bs, n).0 == SelAfter(vars, sel, n)
    ensures forall k | 0 <= k < n :: PassFrom(vars, sel, bs, n).1[k] == RenderedAt(vars, sel, bs, k)
    ensures forall k | n <= k < |bs| :: PassFrom(vars, sel, bs, n).1[k] == bs[k]
  {
    if n > 0 {
      PassBlocks(vars, sel, bs, n - 1);
      var p := PassFrom(vars, sel, bs, n - 1);
      var b := p.1[n - 1 := Render(vars[n - 1], p.0, p.1[n - 1])];
      assert PassFrom(vars, sel, bs, n) == (Step(vars[n - 1], p.0), b);
      forall k | 0 <= k < n
        ensures b[k] == RenderedAt(vars, sel, bs, k)
      {
        if k < n - 1 {
          assert b[k] == p.1[k];
        }
      }
    }
  }

  /**
   * After a pass, a block is displayed iff its variable's condition holds
   * for the picks as they stood at its turn; a displayed enum block holds
   * the menu of that moment.
   */
  lemma ShownAtTurn(vars: seq<Variable>, sel: Picks, bs: seq<Block>, k: nat)
    requires k < |vars| == |bs| && AllReady(vars)
    ensures var b := PassFrom(vars, sel, bs, |vars|).1[k];
            (b.shown <==> Shown(vars[k].conditions, SelAfter(vars, sel, k))) &&
            (b.shown && IsEnum(vars[k]) ==> b.content == Menu(MenuOf(vars[k], SelAfter(vars, sel, k))))
  {
    PassBlocks(vars, sel, bs, |vars|);
  }

  /** A value is offered iff it is one of the variable's values and its condition holds. */
  lemma {:induction false} OfferedExactly(ws: seq<Value>, sel: Picks, w: Value)
    ensures w in Offered(ws, sel) <==> w in ws && Shown(w.conditions, sel)
  {
    if ws != [] {
      var init := ws[..|ws| - 1];
      OfferedExactly(init, sel, w);
      assert ws == init + [ws[|ws| - 1]];
    }
  }

  /** Offering keeps schema order: the offer of a concatenation is the concatenation of offers. */
  lemma {:induction false} OfferedInOrder(ws1: seq<Value>, ws2: seq<Value>, sel: Picks)
    ensures Offered(ws1 + ws2, sel) == Offered(ws1, sel) + Offered(ws2, sel)
    decreases |ws2|
  {
    if ws2 == [] {
      assert ws1 + ws2 == ws1;
    } else {
      var init := ws2[..|ws2| - 1];
      OfferedInOrder(ws1, init, sel);
      assert (ws1 + ws2)[..|ws1 + ws2| - 1] == ws1 + init;
    }
  }

  /** The menu starts with the blank option, then one option per offered value, in order. */
  lemma MenuShape(u: Variable, sel: Picks)
    ensures MenuOf(u, sel)[0] == Blank
    ensures |MenuOf(u, sel)| == 1 + |Offered(Vals(u), sel)|
    ensures forall k | 0 <= k < |Offered(Vals(u), sel)| :: MenuOf(u, sel)[k + 1] == Item(Offered(Vals(u), sel)[k].name)
  {
  }

  /**
   * After an enum variable is rendered its pick is `''` or the name of an
   * offered value; an offered pick is kept; no other variable's pick changes.
   */
  lemma EnumStepOutcome(u: Variable, sel: Picks)
    ensures var s := Current(EnumStep(u, sel), u.name);
            s == "" || OfferedName(u, sel, s)
    ensures u.name in EnumStep(u, sel) ==>
              EnumStep(u, sel)[u.name] == "" || (u.name in sel && EnumStep(u, sel)[u.name] == sel[u.name])
    ensures OfferedName(u, sel, Current(sel, u.name)) ==> EnumStep(u, sel) == sel
    ensures !OfferedName(u, sel, Current(sel, u.name)) ==> EnumStep(u, sel)[u.name] == ""
    ensures forall x | x != u.name :: (x in EnumStep(u, sel) <==> x in sel)
    ensures forall x | x != u.name && x in sel :: EnumStep(u, sel)[x] == sel[x]
  {
  }

  /**
   * A pass only ever resets picks: every pick afterwards is what it was
   * before, or `''`; no pick is dropped.
   */
  lemma {:induction false} PassOnlyClears(vars: seq<Variable>, sel: Picks, n: nat)
    requires n <= |vars|
    ensures sel.Keys <= SelAfter(vars, sel, n).Keys
    ensures forall x | x in SelAfter(vars, sel, n) ::
              SelAfter(vars, sel, n)[x] == "" || (x in sel && SelAfter(vars, sel, n)[x] == sel[x])
  {
    if n > 0 {
      PassOnlyClears(vars, sel, n - 1);
      var prev := SelAfter(vars, sel, n - 1);
      var u := vars[n - 1];
      if Shown(u.conditions, prev) && IsEnum(u) {
        EnumStepOutcome(u, prev);
      }
    }
  }

  /** After `renderSchema` every pick is `''`. */
  lemma RenderedPicksBlank(vars: seq<Variable>)
    ensures forall x | x in SelAfter(vars, map[], |vars|) :: SelAfter(vars, map[], |vars|)[x] == ""
  {
    PassOnlyClears(vars, map[], |vars|);
  }

  /** What variable `i` sees depends only on the variables before it. */
  lemma {:induction false} SeenByLaterOnly(vars: seq<Variable>, more: seq<Variable>, sel: Picks, n: nat)
    requires n <= |vars|
    ensures SelAfter(vars + more, sel, n) == SelAfter(vars, sel, n)
  {
    if n > 0 {
      SeenByLaterOnly(vars, more, sel, n - 1);
      assert (vars + more)[n - 1] == vars[n - 1];
    }
  }

  /** No two variables share a name. */
  predicate UniqueNames(vars: seq<Variable>) {
    forall i, j | 0 <= i < j < |vars| :: vars[i].name != vars[j].name
  }

  /** With distinct names, the steps from `m` on leave variable `i`'s pick alone when `i < m`. */
  lemma {:induction false} LaterStepsKeep(vars: seq<Variable>, sel: Picks, i: nat, m: nat, n: nat)
    requires UniqueNames(vars) && i < m <= n <= |vars|
    ensures vars[i].name in SelAfter(vars, sel, m) <==> vars[i].name in SelAfter(vars, sel, n)
    ensures vars[i].name in SelAfter(vars, sel, m) ==>
              SelAfter(vars, sel, n)[vars[i].name] == SelAfter(vars, sel, m)[vars[i].name]
    decreases n - m
  {
    if n > m {
      LaterStepsKeep(vars, sel, i, m, n - 1);
      var prev := SelAfter(vars, sel, n - 1);
      var u := vars[n - 1];
      if Shown(u.conditions, prev) && IsEnum(u) {
        EnumStepOutcome(u, prev);
      }
    }
  }

  /**
   * With distinct names, a shown enum variable ends the pass with a pick
   * of `''` or an option it was offered at its turn.
   */
  lemma FinalPickOffered(vars: seq<Variable>, sel: Picks, i: nat)
    requires UniqueNames(vars) && i < |vars|
    requires IsEnum(vars[i]) && Shown(vars[i].conditions, SelAfter(vars, sel, i))
    ensures var pick := Current(SelAfter(vars, sel, |vars|), vars[i].name);
            pick == "" || OfferedName(vars[i], SelAfter(vars, sel, i), pick)
  {
    EnumStepOutcome(vars[i], SelAfter(vars, sel, i));
    LaterStepsKeep(vars, sel, i, i + 1, |vars|);
  }

  /**
   * With distinct names, a variable hidden at its turn ends the pass with
   * the pick it started with.
   */
  lemma HiddenKeepsPick(vars: seq<Variable>, sel: Picks, i: nat)
    requires UniqueNames(vars) && i < |vars|
    requires !Shown(vars[i].conditions, SelAfter(vars, sel, i))
    ensures var fin := SelAfter(vars, sel, |vars|);
            (vars[i].name in fin <==> vars[i].name in sel) &&
            (vars[i].name in sel ==> fin[vars[i].name] == sel[vars[i].name])
  {
    EarlierStepsKeep(vars, sel, i, i);
    LaterStepsKeep(vars, sel, i, i + 1, |vars|);
  }

  /** With distinct names, the steps before `i` leave variable `i`'s pick alone. */
  lemma {:induction false} EarlierStepsKeep(vars: seq<Variable>, sel: Picks, i: nat, m: nat)
    requires UniqueNames(vars) && m <= i < |vars|
    ensures vars[i].name in SelAfter(vars, sel, m) <==> vars[i].name in sel
    ensures vars[i].name in sel ==> SelAfter(vars, sel, m)[vars[i].name] == sel[vars[i].name]
  {
    if m > 0 {
      EarlierStepsKeep(vars, sel, i, m - 1);
      var prev := SelAfter(vars, sel, m - 1);
      var u := vars[m - 1];
      if Shown(u.conditions, prev) && IsEnum(u) {
        EnumStepOutcome(u, prev);
      }
    }
  }

  /** Keys other than `allOf`/`anyOf` never disqualify and never count as triggered. */
  lemma LeafKeysNeverDisqualify(es: seq<Entry>, sel: Picks)
    requires forall k | 0 <= k < |es| :: es[k].Leaf?
    ensures ItemsKeyed(Cond(es)) && !Disqualified(Cond(es), sel)
    ensures es != [] ==> !Triggered(Cond(es), sel)
  {
    if es != [] {
      assert es[0].Leaf?;
    }
  }

  /** A group of single-key objects `{x_j: v_j}`. */
  predicate FlatGroup(items: seq<Cond>) {
    forall j | 0 <= j < |items| :: |items[j].entries| == 1 && items[j].entries[0].Leaf?
  }

  /**
   * For one flat `allOf` group, an info value that is not disqualified also
   * passes `evaluateConditions`: no element names a variable picked
   * otherwise than required.
   */
  lemma AllOfNotDisqualifiedIsShown(items: seq<Cond>, sel: Picks)
    requires FlatGroup(items)
    ensures ItemsKeyed(Cond([AllOf(items)]))
    ensures !Disqualified(Cond([AllOf(items)]), sel) ==> Shown(Cond([AllOf(items)]), sel)
  {
    var c := Cond([AllOf(items)]);
    if !Disqualified(c, sel) {
      AllOfDecides([], items, [], AsChoices(sel));
      forall j | 0 <= j < |items| ensures Evaluate(items[j], AsChoices(sel)) {
        FlatItemHolds(items[j], sel);
      }
    }
  }

  /**
   * For one flat, non-empty `anyOf` group, an info value that is not
   * disqualified also passes `evaluateConditions`.
   */
  lemma AnyOfNotDisqualifiedIsShown(items: seq<Cond>, sel: Picks)
    requires FlatGroup(items) && items != []
    ensures ItemsKeyed(Cond([AnyOf(items)]))
    ensures !Disqualified(Cond([AnyOf(items)]), sel) ==> Shown(Cond([AnyOf(items)]), sel)
  {
    var c := Cond([AnyOf(items)]);
    if !Disqualified(c, sel) {
      assert c.entries[0] == AnyOf(items);
      var j :| 0 <= j < |items| && !Conflicts(items[j], sel);
      FlatItemHolds(items[j], sel);
      AnyOfDecides([], items, [], AsChoices(sel));
    }
  }

  /** A single-key element that does not conflict holds for the evaluator. */
  lemma FlatItemHolds(item: Cond, sel: Picks)
    requires |item.entries| == 1 && item.entries[0].Leaf?
    requires !Conflicts(item, sel)
    ensures Evaluate(item, AsChoices(sel))
  {
    var x, v := item.entries[0].variable, item.entries[0].required;
    LeafMapSemantics(item.entries, AsChoices(sel));
    if x in sel && sel[x] != "" {
      assert sel[x] == v;
      assert v <= sel[x];
    }
  }

  /**
   * The two rules differ: the pick "Hardcore" shows a value whose condition
   * is `{allOf: [{Level: "Hard"}]}` to the evaluator, yet disqualifies it.
   */
  lemma DisqualifyDiffersFromEvaluate()
    ensures ItemsKeyed(Cond([AllOf([Cond([Leaf("Level", "Hard")])])]))
    ensures Shown(Cond([AllOf([Cond([Leaf("Level", "Hard")])])]), map["Level" := "Hardcore"])
    ensures Disqualified(Cond([AllOf([Cond([Leaf("Level", "Hard")])])]), map["Level" := "Hardcore"])
  {
    var item := Cond([Leaf("Level", "Hard")]);
    var sel := map["Level" := "Hardcore"];
    assert AsChoices(sel) == map["Level" := One("Hardcore")];
    SubstringSelectionExample();
    AllOfDecides([], [item], [], AsChoices(sel));
    assert Conflicts([item][0], sel);
    assert Cond([AllOf([item])]).entries[0] == AllOf([item]);
    assert exists j | 0 <= j < |[item]| :: Conflicts([item][j], sel);
  }

  /** A group nested in a group prints its array as "[object Object]". */
  lemma NestedGroupHint(inner: Cond)
    ensures GroupText(AllOf([Cond([AnyOf([inner])])])) == "anyOf = [object Object]"
  {
    var item := Cond([AnyOf([inner])]);
    var marks := seq(1, k requires 0 <= k < 1 => "[object Object]");
    assert marks == ["[object Object]"];
    assert ItemText(item) == "anyOf = [object Object]";
    var texts := seq(1, j requires 0 <= j < 1 => ItemText([item][j]));
    assert texts == [ItemText(item)];
  }

  /** The fields shown are exactly those of the values that are not disqualified. */
  lemma {:induction false} FieldsExactly(ws: seq<Value>, sel: Picks, f: InfoField)
    requires forall w | w in ws :: InfoValueOk(w)
    ensures f in FieldsOf(ws, sel) <==>
              exists w | w in ws :: !Disqualified(w.conditions, sel) && f == FieldOf(w, sel)
  {
    if ws != [] {
      var init := ws[..|ws| - 1];
      assert ws == init + [ws[|ws| - 1]];
      FieldsExactly(init, sel, f);
    }
  }
}
