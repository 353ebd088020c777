/**
 * `getValueRelationships(schema, selections)` (js/modules/utils.js:43-98):
 * for every variable name, the values that selected values relate to and
 * the values that are incompatible with what is selected.
 */
module Relationships {
  import opened Wrappers
  import opened Conditions
  import opened Document
  import opened Analysis
  import JsText

  /** The `{related, incompatible}` pair of `Set`s kept per variable name. */
  datatype Rel = Rel(related: set<Token>, incompatible: set<Token>)

  /** The `relationships` object. */
  type Rels = map<string, Rel>

  /** A value's `name` as it lands in a `Set`: the string, or `undefined`. */
  function NameToken(n: Option<string>): Token {
    if n.Some? then Str(n.value) else Undefined
  }

  /** The variable names: the keys `relationships` is created with. */
  function Names(vars: seq<Variable>): set<string> {
    set u | u in vars :: u.name
  }

  /** Index of the first variable named `x` (`schema.variables.find`), or `|vars|`. */
  function FindIndex(vars: seq<Variable>, x: string): (i: nat)
    ensures i <= |vars|
    ensures i < |vars| ==> vars[i].name == x
    ensures forall k | 0 <= k < i :: vars[k].name != x
  {
    if vars == [] || vars[0].name == x then 0 else 1 + FindIndex(vars[1..], x)
  }

  /** The variable `find` returns for name `x`, if any. */
  function Find(vars: seq<Variable>, x: string): (r: Option<Variable>)
    ensures r.Some? ==> r.value in vars && r.value.name == x
    ensures r.None? <==> x !in Names(vars)
  {
    var i := FindIndex(vars, x);
    if i < |vars| then Some(vars[i])
    else
      assert forall u | u in vars :: u.name != x;
      None
  }

  /** The values of the variable `find` returns, or none when there is no such variable. */
  function FindValues(vars: seq<Variable>, x: string): seq<Value> {
    var f := Find(vars, x);
    if f.Some? then Vals(f.value) else []
  }

  /**
   * `selections[name]?.includes(vname)`: array membership, or a substring
   * search on a string, where a missing value name is searched for as the
   * text "undefined".
   */
  predicate Selected(sel: Selections, name: string, vname: Option<string>) {
    name in sel &&
    match sel[name]
    case Many(vs) => vname.Some? && vname.value in vs
    case One(t) => JsText.Includes(t, if vname.Some? then vname.value else "undefined")
  }

  /**
   * The compatibility test for one referenced variable `x`, when it does
   * not throw: nothing is chosen, or some chosen name is allowed.
   */
  predicate ChoiceOk(c: Cond, sel: Selections, x: string) {
    x !in sel ||
    match sel[x]
    case Many(vs) => vs == [] || exists s | s in vs :: Str(s) in AllowedFor(c, x)
    case One(t) => t == ""
  }

  /** `isCompatible`: every referenced variable passes its test. */
  predicate Compatible(c: Cond, sel: Selections) {
    forall x | x in RequiredVars(c) :: ChoiceOk(c, sel, x)
  }

  /** The selection for `x` is a non-empty string, on which `.some` throws. */
  predicate SomeOnString(sel: Selections, x: string) {
    x in sel && sel[x].One? && sel[x].text != ""
  }

  /**
   * `requiredVars.every(...)` reaches, before deciding, a variable whose
   * selection is a non-empty string, and throws.
   */
  predicate CompatThrows(c: Cond, sel: Selections) {
    var rvs := RequiredVars(c);
    exists k | 0 <= k < |rvs| ::
      SomeOnString(sel, rvs[k]) && forall k' | 0 <= k' < k :: ChoiceOk(c, sel, rvs[k'])
  }

  /**
   * Processing value `w` of variable `u` throws: it is selected and refers
   * to a variable the schema does not have, or its compatibility test throws.
   */
  predicate PairThrows(vars: seq<Variable>, sel: Selections, u: Variable, w: Value) {
    (Selected(sel, u.name, w.name) && exists x | x in RequiredVars(w.conditions) :: x !in Names(vars))
    || CompatThrows(w.conditions, sel)
  }

  /** The call throws a `TypeError` somewhere. */
  predicate Throws(schema: Schema, sel: Selections) {
    schema.variables.None?
    || (exists u | u in Vars(schema) :: u.values.None?)
    || (exists u, w | u in Vars(schema) && w in Vals(u) :: PairThrows(Vars(schema), sel, u, w))
  }

  /** The names of the values in `vs` that are not in `allowed`. */
  function OutsideOf(vs: seq<Value>, allowed: set<Token>): set<Token> {
    set v | v in vs && NameToken(v.name) !in allowed :: NameToken(v.name)
  }

  /** The values of the variable named `x` that condition `c` does not allow. */
  function Outside(vars: seq<Variable>, c: Cond, x: string): set<Token> {
    OutsideOf(FindValues(vars, x), AllowedFor(c, x))
  }

  /** Value `w` of `u` is selected and its condition names `x`. */
  predicate Marks(sel: Selections, u: Variable, w: Value, x: string) {
    Selected(sel, u.name, w.name) && x in AllowedValues(w.conditions)
  }

  /** What a selected value `w` of `u` adds to `x`'s related set. */
  function RelatedBy(sel: Selections, u: Variable, w: Value, x: string): set<Token> {
    if Marks(sel, u, w, x) then AllowedFor(w.conditions, x) else {}
  }

  /** What a selected value `w` of `u` adds to `x`'s incompatible set. */
  function OutsideBy(vars: seq<Variable>, sel: Selections, u: Variable, w: Value, x: string): set<Token> {
    if Marks(sel, u, w, x) then Outside(vars, w.conditions, x) else {}
  }

  /** What value `w`'s own compatibility check adds to `x`'s incompatible set. */
  function OwnBy(sel: Selections, u: Variable, w: Value, x: string): set<Token> {
    if u.name == x && !Compatible(w.conditions, sel) then {NameToken(w.name)} else {}
  }

  /** (variable, value) pairs. */
  type Done = set<(Variable, Value)>

  /** Everything the pairs in `done` added to `x`'s related set. */
  function RelatedIn(sel: Selections, done: Done, x: string): set<Token> {
    set p, t | p in done && t in RelatedBy(sel, p.0, p.1, x) :: t
  }

  /** Everything the pairs in `done` added to `x`'s incompatible set. */
  function IncompatibleIn(vars: seq<Variable>, sel: Selections, done: Done, x: string): set<Token> {
    set p, t | p in done && t in OutsideBy(vars, sel, p.0, p.1, x) + OwnBy(sel, p.0, p.1, x) :: t
  }

  /** `relationships` once the pairs in `done` have been processed. */
  function RelsOf(vars: seq<Variable>, sel: Selections, done: Done): Rels {
    map x | x in Names(vars) :: Rel(RelatedIn(sel, done, x), IncompatibleIn(vars, sel, done, x))
  }

  /** Every (variable, value) pair of `us`. */
  function PairsOf(us: seq<Variable>): Done {
    set u, w | u in us && w in Vals(u) :: (u, w)
  }

  /**
   * The result of `getValueRelationships`: a `TypeError`, or every variable
   * name mapped to what all the schema's values contribute to it.
   */
  function Relationships(schema: Schema, sel: Selections): (r: Result<Rels>)
    ensures r.Ok? ==> r.value.Keys == Names(Vars(schema))
    ensures schema.variables.None? ==> r.TypeError?
  {
    if Throws(schema, sel) then TypeError
    else Ok(RelsOf(Vars(schema), sel, PairsOf(Vars(schema))))
  }

  /** `relationships` after the selected-value branch for value `w` of `u`. */
  function SelectedStep(vars: seq<Variable>, sel: Selections, rel: Rels, u: Variable, w: Value): Rels {
    map y | y in rel ::
      if Marks(sel, u, w, y)
      then Rel(rel[y].related + AllowedFor(w.conditions, y), rel[y].incompatible + Outside(vars, w.conditions, y))
      else rel[y]
  }

  /** `relationships` after value `w`'s own compatibility check. */
  function OwnStep(sel: Selections, rel: Rels, u: Variable, w: Value): Rels {
    if u.name in rel && !Compatible(w.conditions, sel)
    then rel[u.name := Rel(rel[u.name].related, rel[u.name].incompatible + {NameToken(w.name)})]
    else rel
  }

  /** `relationships` after one more value has been processed. */
  function AddPair(vars: seq<Variable>, sel: Selections, rel: Rels, u: Variable, w: Value): Rels {
    OwnStep(sel, SelectedStep(vars, sel, rel, u, w), u, w)
  }

  // ---------------------------------------------------------------------
  // The imperative walk.

  /** `getValueRelationships(schema, selections)`. */
  method GetValueRelationships(schema: Schema, sel: Selections) returns (r: Result<Rels>)
    ensures r == Relationships(schema, sel)
  {
    if schema.variables.None? {
      return TypeError;
    }
    var vars := schema.variables.value;
    var rel := InitRelationships(vars);
    RelsOfNothing(vars, sel);
    ghost var done: Done := {};
    assert vars[..0] == [];
    for i := 0 to |vars|
      invariant done == PairsOf(vars[..i])
      invariant rel == RelsOf(vars, sel, done)
      invariant forall v | v in vars[..i] :: v.values.Some?
      invariant forall p | p in done :: !PairThrows(vars, sel, p.0, p.1)
    {
      var u := vars[i];
      assert u in vars;
      if u.values.None? {
        return TypeError;
      }
      var res := ProcessVariable(vars, sel, u, done, rel);
      if res.TypeError? {
        return TypeError;
      }
      rel := res.value;
      done := done + set w | w in Vals(u) :: (u, w);
      PairsOfStep(vars, i);
      assert vars[..i + 1] == vars[..i] + [u];
    }
    assert vars[..|vars|] == vars;
    NothingThrown(schema, sel);
    return Ok(rel);
  }

  /** No variable lacks values and no pair throws: the call returns normally. */
  lemma NothingThrown(schema: Schema, sel: Selections)
    requires schema.variables.Some?
    requires forall v | v in Vars(schema) :: v.values.Some?
    requires forall p | p in PairsOf(Vars(schema)) :: !PairThrows(Vars(schema), sel, p.0, p.1)
    ensures Relationships(schema, sel) == Ok(RelsOf(Vars(schema), sel, PairsOf(Vars(schema))))
  {
    forall u, w | u in Vars(schema) && w in Vals(u) ensures !PairThrows(Vars(schema), sel, u, w) {
      assert (u, w) in PairsOf(Vars(schema));
    }
  }

  /** `variable.values.forEach(...)` for one variable `u` of the main loop. */
  method ProcessVariable(vars: seq<Variable>, sel: Selections, u: Variable, ghost done: Done, rel: Rels)
    returns (r: Result<Rels>)
    requires u in vars && u.values.Some?
    requires rel == RelsOf(vars, sel, done)
    ensures r.TypeError? ==>
              (exists v | v in vars :: v.values.None?) || (exists w | w in Vals(u) :: PairThrows(vars, sel, u, w))
    ensures r.Ok? ==> r.value == RelsOf(vars, sel, done + set w | w in Vals(u) :: (u, w))
    ensures r.Ok? ==> forall w | w in Vals(u) :: !PairThrows(vars, sel, u, w)
  {
    var ws := u.values.value;
    var out := rel;
    ghost var seen := done;
    assert ws[..0] == [];
    for j := 0 to |ws|
      invariant seen == done + set w | w in ws[..j] :: (u, w)
      invariant out == RelsOf(vars, sel, seen)
      invariant forall w | w in ws[..j] :: !PairThrows(vars, sel, u, w)
    {
      var res := ProcessValue(vars, sel, u, ws[j], out);
      if res.TypeError? {
        return TypeError;
      }
      RelsOfAdd(vars, sel, seen, u, ws[j]);
      out := res.value;
      assert ws[..j + 1] == ws[..j] + [ws[j]];
      seen := seen + {(u, ws[j])};
    }
    assert ws[..|ws|] == ws;
    return Ok(out);
  }

  /** The first loop: an empty entry for every variable name. */
  method InitRelationships(vars: seq<Variable>) returns (rel: Rels)
    ensures rel.Keys == Names(vars)
    ensures forall x | x in rel :: rel[x] == Rel({}, {})
  {
    rel := map[];
    for i := 0 to |vars|
      invariant rel.Keys == Names(vars[..i])
      invariant forall x | x in rel :: rel[x] == Rel({}, {})
    {
      assert vars[..i + 1] == vars[..i] + [vars[i]];
      rel := rel[vars[i].name := Rel({}, {})];
    }
    assert vars[..|vars|] == vars;
  }

  /** Processes value `w` of variable `u`: the body of the inner `forEach`. */
  method ProcessValue(vars: seq<Variable>, sel: Selections, u: Variable, w: Value, rel: Rels)
    returns (r: Result<Rels>)
    requires u in vars
    requires rel.Keys == Names(vars)
    ensures r.TypeError? ==> (exists v | v in vars :: v.values.None?) || PairThrows(vars, sel, u, w)
    ensures r.Ok? ==> !PairThrows(vars, sel, u, w) && r.value == AddPair(vars, sel, rel, u, w)
  {
    var c := w.conditions;
    var requiredVars, allowedValues := AnalyzeConditions(c);
    var out := rel;
    if Selected(sel, u.name, w.name) {
      RequiredAreKeys(c);
      var marked := MarkSelected(vars, c, requiredVars, allowedValues, rel);
      if marked.TypeError? {
        return TypeError;
      }
      out := marked.value;
      MarkedIsSelectedStep(vars, sel, rel, u, w, out);
    } else {
      UnselectedStep(vars, sel, rel, u, w);
    }
    var compatible := IsCompatible(c, sel, requiredVars, allowedValues);
    if compatible.TypeError? {
      return TypeError;
    }
    if !compatible.value {
      out := out[u.name := Rel(out[u.name].related, out[u.name].incompatible + {NameToken(w.name)})];
    }
    return Ok(out);
  }

  /** What `MarkSelected` computes is the selected-value branch. */
  lemma MarkedIsSelectedStep(vars: seq<Variable>, sel: Selections, rel: Rels, u: Variable, w: Value, out: Rels)
    requires Selected(sel, u.name, w.name)
    requires out.Keys == rel.Keys
    requires forall y | y in rel ::
               out[y] == if y in RequiredVars(w.conditions)
                         then Rel(rel[y].related + AllowedFor(w.conditions, y),
                                  rel[y].incompatible + Outside(vars, w.conditions, y))
                         else rel[y]
    ensures out == SelectedStep(vars, sel, rel, u, w)
  {
    AnalysisConsistent(w.conditions);
  }

  /** An unselected value leaves the selected-value branch out. */
  lemma UnselectedStep(vars: seq<Variable>, sel: Selections, rel: Rels, u: Variable, w: Value)
    requires !Selected(sel, u.name, w.name)
    ensures SelectedStep(vars, sel, rel, u, w) == rel
  {
  }

  /**
   * The selected-value branch: for each referenced variable, its values
   * outside the allowed set become incompatible and the allowed values
   * become related.
   */
  method MarkSelected(vars: seq<Variable>, c: Cond, requiredVars: seq<string>,
                      allowedValues: map<string, set<Token>>, rel: Rels)
    returns (r: Result<Rels>)
    requires forall x | x in requiredVars :: x in allowedValues && allowedValues[x] == AllowedFor(c, x)
    requires forall i, j | 0 <= i < j < |requiredVars| :: requiredVars[i] != requiredVars[j]
    requires rel.Keys == Names(vars)
    ensures r.TypeError? ==>
              (exists v | v in vars :: v.values.None?) || (exists x | x in requiredVars :: x !in Names(vars))
    ensures r.Ok? ==> forall x | x in requiredVars :: x in Names(vars)
    ensures r.Ok? ==> r.value.Keys == rel.Keys
    ensures r.Ok? ==> forall y | y in rel ::
              r.value[y] == if y in requiredVars
                            then Rel(rel[y].related + AllowedFor(c, y), rel[y].incompatible + Outside(vars, c, y))
                            else rel[y]
  {
    var out := rel;
    for k := 0 to |requiredVars|
      invariant out.Keys == rel.Keys
      invariant forall x | x in requiredVars[..k] :: x in Names(vars)
      invariant forall y | y in out ::
                  out[y] == if y in requiredVars[..k]
                            then Rel(rel[y].related + AllowedFor(c, y), rel[y].incompatible + Outside(vars, c, y))
                            else rel[y]
    {
      var x := requiredVars[k];
      assert x !in requiredVars[..k] && x in requiredVars;
      var marked := MarkVariable(vars, c, x, allowedValues[x], out);
      if marked.TypeError? {
        return TypeError;
      }
      out := marked.value;
      assert requiredVars[..k + 1] == requiredVars[..k] + [x];
    }
    assert requiredVars[..|requiredVars|] == requiredVars;
    return Ok(out);
  }

  /**
   * One referenced variable `x` of a selected value: its values outside the
   * allowed set are added to its incompatible set, then the allowed values
   * to its related set.
   */
  method MarkVariable(vars: seq<Variable>, c: Cond, x: string, allowed: set<Token>, rel: Rels)
    returns (r: Result<Rels>)
    requires allowed == AllowedFor(c, x)
    requires rel.Keys == Names(vars)
    ensures r.TypeError? ==> (exists v | v in vars :: v.values.None?) || x !in Names(vars)
    ensures r.Ok? ==> x in rel
    ensures r.Ok? ==>
              r.value == rel[x := Rel(rel[x].related + AllowedFor(c, x), rel[x].incompatible + Outside(vars, c, x))]
  {
    var varObj := Find(vars, x);
    if varObj.None? {
      // `relationships[x]` is undefined: adding the first related value throws.
      return TypeError;
    }
    if varObj.value.values.None? {
      return TypeError;
    }
    var bad := MarkOutside(varObj.value.values.value, allowed);
    var entry := rel[x];
    entry := Rel(entry.related, entry.incompatible + bad);
    entry := Rel(entry.related + allowed, entry.incompatible);
    return Ok(rel[x := entry]);
  }

  /** `varObj.values.forEach(v => ... incompatible.add(v.name))` for names not allowed. */
  method MarkOutside(vs: seq<Value>, allowed: set<Token>) returns (bad: set<Token>)
    ensures bad == OutsideOf(vs, allowed)
  {
    bad := {};
    for k := 0 to |vs|
      invariant bad == set v | v in vs[..k] && NameToken(v.name) !in allowed :: NameToken(v.name)
    {
      assert vs[..k + 1] == vs[..k] + [vs[k]];
      if NameToken(vs[k].name) !in allowed {
        bad := bad + {NameToken(vs[k].name)};
      }
    }
    assert vs[..|vs|] == vs;
    assert bad == OutsideOf(vs, allowed);
  }

  /** `requiredVars.every(...)`, which throws on a non-empty string selection. */
  method IsCompatible(c: Cond, sel: Selections, requiredVars: seq<string>, allowedValues: map<string, set<Token>>)
    returns (r: Result<bool>)
    requires requiredVars == RequiredVars(c) && allowedValues == AllowedValues(c)
    ensures r == if CompatThrows(c, sel) then TypeError else Ok(Compatible(c, sel))
  {
    RequiredAreKeys(c);
    for k := 0 to |requiredVars|
      invariant forall k' | 0 <= k' < k :: ChoiceOk(c, sel, requiredVars[k'])
    {
      var x := requiredVars[k];
      var ok := CheckVariable(c, sel, x, allowedValues[x]);
      if ok.TypeError? {
        assert CompatThrows(c, sel) by {
          assert SomeOnString(sel, requiredVars[k]);
        }
        return TypeError;
      }
      if !ok.value {
        NotCompatibleAt(c, sel, k);
        return Ok(false);
      }
    }
    assert !CompatThrows(c, sel);
    return Ok(true);
  }

  /** The callback `every` runs for one referenced variable `x`. */
  method CheckVariable(c: Cond, sel: Selections, x: string, allowed: set<Token>) returns (r: Result<bool>)
    requires allowed == AllowedFor(c, x)
    ensures r == if SomeOnString(sel, x) then TypeError else Ok(ChoiceOk(c, sel, x))
  {
    if x !in sel {
      return Ok(true);
    }
    match sel[x]
    case Many(vs) =>
      if vs == [] {
        return Ok(true);
      }
      var some := SomeAllowed(vs, allowed);
      return Ok(some);
    case One(t) =>
      if t == "" {
        return Ok(true);
      }
      return TypeError;
  }

  /** `selectedValues.some(s => allowed.has(s))`. */
  method SomeAllowed(vs: seq<string>, allowed: set<Token>) returns (b: bool)
    ensures b <==> exists s | s in vs :: Str(s) in allowed
  {
    for k := 0 to |vs|
      invariant forall k' | 0 <= k' < k :: Str(vs[k']) !in allowed
    {
      if Str(vs[k]) in allowed {
        return true;
      }
    }
    return false;
  }

  /** The first failing variable decides `every` as false, and nothing before it threw. */
  lemma NotCompatibleAt(c: Cond, sel: Selections, k: nat)
    requires k < |RequiredVars(c)|
    requires !ChoiceOk(c, sel, RequiredVars(c)[k]) && !SomeOnString(sel, RequiredVars(c)[k])
    requires forall k' | 0 <= k' < k :: ChoiceOk(c, sel, RequiredVars(c)[k'])
    ensures !CompatThrows(c, sel) && !Compatible(c, sel)
  {
    var rvs := RequiredVars(c);
    assert rvs[k] in rvs;
    forall k0 | 0 <= k0 < |rvs| && SomeOnString(sel, rvs[k0])
      ensures exists k' | 0 <= k' < k0 :: !ChoiceOk(c, sel, rvs[k'])
    {
      assert k0 > k;
    }
  }

  // ---------------------------------------------------------------------
  // Bookkeeping lemmas for `RelsOf`.

  /** Before any value is processed every entry is empty. */
  lemma RelsOfNothing(vars: seq<Variable>, sel: Selections)
    ensures RelsOf(vars, sel, {}).Keys == Names(vars)
    ensures forall x | x in RelsOf(vars, sel, {}) :: RelsOf(vars, sel, {})[x] == Rel({}, {})
  {
  }

  /** Processing one more pair adds exactly its contributions. */
  lemma RelsOfAdd(vars: seq<Variable>, sel: Selections, done: Done, u: Variable, w: Value)
    ensures RelsOf(vars, sel, done + {(u, w)}) == AddPair(vars, sel, RelsOf(vars, sel, done), u, w)
  {
    var a := RelsOf(vars, sel, done + {(u, w)});
    var b := AddPair(vars, sel, RelsOf(vars, sel, done), u, w);
    assert a.Keys == b.Keys;
    forall x | x in a ensures a[x] == b[x] {
      RelsOfAddAt(vars, sel, done, u, w, x);
    }
  }

  lemma RelsOfAddAt(vars: seq<Variable>, sel: Selections, done: Done, u: Variable, w: Value, x: string)
    requires x in Names(vars)
    ensures RelsOf(vars, sel, done + {(u, w)})[x] == AddPair(vars, sel, RelsOf(vars, sel, done), u, w)[x]
  {
    RelatedInAdd(sel, done, u, w, x);
    IncompatibleInAdd(vars, sel, done, u, w, x);
  }

  lemma RelatedInAdd(sel: Selections, done: Done, u: Variable, w: Value, x: string)
    ensures RelatedIn(sel, done + {(u, w)}, x) ==
            if Marks(sel, u, w, x) then RelatedIn(sel, done, x) + AllowedFor(w.conditions, x)
            else RelatedIn(sel, done, x)
  {
    var d' := done + {(u, w)};
    forall t | t in RelatedBy(sel, u, w, x) ensures t in RelatedIn(sel, d', x) {
      assert (u, w) in d';
    }
  }

  lemma IncompatibleInAdd(vars: seq<Variable>, sel: Selections, done: Done, u: Variable, w: Value, x: string)
    ensures var i := IncompatibleIn(vars, sel, done, x);
            var base := if Marks(sel, u, w, x) then i + Outside(vars, w.conditions, x) else i;
            IncompatibleIn(vars, sel, done + {(u, w)}, x) ==
              if x == u.name && !Compatible(w.conditions, sel) then base + {NameToken(w.name)} else base
  {
    var d' := done + {(u, w)};
    forall t | t in OutsideBy(vars, sel, u, w, x) + OwnBy(sel, u, w, x)
      ensures t in IncompatibleIn(vars, sel, d', x)
    {
      assert (u, w) in d';
    }
  }

  /** The pairs of one more variable. */
  lemma PairsOfStep(vars: seq<Variable>, i: nat)
    requires i < |vars|
    ensures PairsOf(vars[..i + 1]) == PairsOf(vars[..i]) + set w | w in Vals(vars[i]) :: (vars[i], w)
  {
    assert vars[..i + 1] == vars[..i] + [vars[i]];
  }

  // ---------------------------------------------------------------------
  // Properties.

  /** A variable without a `values` array makes the call throw. */
  lemma MissingValuesThrows(schema: Schema, sel: Selections, u: Variable)
    requires u in Vars(schema) && u.values.None?
    ensures Relationships(schema, sel).TypeError?
  {
  }

  /**
   * A selected value whose condition names a variable the schema lacks
   * makes the call throw.
   */
  lemma UnknownReferenceThrows(schema: Schema, sel: Selections, u: Variable, w: Value, x: string)
    requires u in Vars(schema) && w in Vals(u)
    requires Selected(sel, u.name, w.name)
    requires x in RequiredVars(w.conditions) && x !in Names(Vars(schema))
    ensures Relationships(schema, sel).TypeError?
  {
    assert PairThrows(Vars(schema), sel, u, w);
  }

  /**
   * For a selected value, every value its condition allows for a referenced
   * variable is related, and every value of that variable outside the
   * allowed set is incompatible.
   */
  lemma SelectedValueEffects(schema: Schema, sel: Selections, u: Variable, w: Value, x: string)
    requires Relationships(schema, sel).Ok?
    requires u in Vars(schema) && w in Vals(u) && Selected(sel, u.name, w.name)
    requires x in RequiredVars(w.conditions)
    ensures x in Relationships(schema, sel).value
    ensures AllowedFor(w.conditions, x) <= Relationships(schema, sel).value[x].related
    ensures forall v | v in FindValues(Vars(schema), x) && NameToken(v.name) !in AllowedFor(w.conditions, x) ::
              NameToken(v.name) in Relationships(schema, sel).value[x].incompatible
  {
    var vars := Vars(schema);
    var done := PairsOf(vars);
    var rel := OkResult(schema, sel, u, w);
    RequiredAreKeys(w.conditions);
    assert Marks(sel, u, w, x);
    forall t | t in AllowedFor(w.conditions, x) ensures t in RelatedIn(sel, done, x) {
      assert (u, w) in done && t in RelatedBy(sel, u, w, x);
    }
    forall v | v in FindValues(vars, x) && NameToken(v.name) !in AllowedFor(w.conditions, x)
      ensures NameToken(v.name) in IncompatibleIn(vars, sel, done, x)
    {
      var t := NameToken(v.name);
      assert (u, w) in done && t in OutsideBy(vars, sel, u, w, x);
      assert t in OutsideBy(vars, sel, u, w, x) + OwnBy(sel, u, w, x);
    }
  }

  /** A returned result is the declared map, and the given pair did not throw. */
  lemma OkResult(schema: Schema, sel: Selections, u: Variable, w: Value) returns (rel: Rels)
    requires Relationships(schema, sel).Ok?
    requires u in Vars(schema) && w in Vals(u)
    ensures rel == Relationships(schema, sel).value == RelsOf(Vars(schema), sel, PairsOf(Vars(schema)))
    ensures !PairThrows(Vars(schema), sel, u, w)
    ensures (u, w) in PairsOf(Vars(schema))
  {
    rel := Relationships(schema, sel).value;
  }

  /** A value failing its own compatibility check is incompatible under its own variable. */
  lemma OwnCheckMarks(schema: Schema, sel: Selections, u: Variable, w: Value)
    requires Relationships(schema, sel).Ok?
    requires u in Vars(schema) && w in Vals(u) && !Compatible(w.conditions, sel)
    ensures NameToken(w.name) in Relationships(schema, sel).value[u.name].incompatible
  {
    var vars := Vars(schema);
    var rel := OkResult(schema, sel, u, w);
    assert u.name in Names(vars);
    assert NameToken(w.name) in OwnBy(sel, u, w, u.name);
    assert NameToken(w.name) in OutsideBy(vars, sel, u, w, u.name) + OwnBy(sel, u, w, u.name);
    assert NameToken(w.name) in IncompatibleIn(vars, sel, PairsOf(vars), u.name);
  }

  /**
   * With array selections the check never throws, and a value fails it iff
   * some variable its condition names has a non-empty selection none of
   * whose names the condition allows.
   */
  lemma CompatibleMeaning(c: Cond, sel: Selections)
    requires forall x | x in sel :: sel[x].Many?
    ensures !CompatThrows(c, sel)
    ensures !Compatible(c, sel) <==>
              exists x | x in RequiredVars(c) ::
                x in sel && sel[x].values != [] && forall s | s in sel[x].values :: Str(s) !in AllowedFor(c, x)
  {
  }

  /**
   * A value without conditions references nothing, so its own check passes
   * and never throws: only values with conditions are marked by it.
   */
  lemma UnconditionedPasses(sel: Selections)
    ensures RequiredVars(Empty) == []
    ensures Compatible(Empty, sel) && !CompatThrows(Empty, sel)
  {
    assert Reached(Empty) == [];
    assert Keys([]) == [];
  }

  /**
   * A non-empty string selection (as the dynamic form stores them) for the
   * first variable a value's condition names makes the call throw.
   */
  lemma StringSelectionThrows(schema: Schema, sel: Selections, u: Variable, w: Value)
    requires u in Vars(schema) && w in Vals(u)
    requires RequiredVars(w.conditions) != [] && SomeOnString(sel, RequiredVars(w.conditions)[0])
    ensures Relationships(schema, sel).TypeError?
  {
    assert CompatThrows(w.conditions, sel);
    assert PairThrows(Vars(schema), sel, u, w);
  }

  /**
   * The sets only grow as values are processed: no step removes anything
   * from a related or incompatible set.
   */
  lemma {:induction false} OnlyAdds(vars: seq<Variable>, sel: Selections, d1: Done, d2: Done)
    requires d1 <= d2
    ensures RelsOf(vars, sel, d1).Keys == RelsOf(vars, sel, d2).Keys
    ensures forall x | x in RelsOf(vars, sel, d1) ::
              RelsOf(vars, sel, d1)[x].related <= RelsOf(vars, sel, d2)[x].related &&
              RelsOf(vars, sel, d1)[x].incompatible <= RelsOf(vars, sel, d2)[x].incompatible
  {
    forall x | x in Names(vars)
      ensures RelatedIn(sel, d1, x) <= RelatedIn(sel, d2, x)
      ensures IncompatibleIn(vars, sel, d1, x) <= IncompatibleIn(vars, sel, d2, x)
    {
      forall t | t in RelatedIn(sel, d1, x) ensures t in RelatedIn(sel, d2, x) {
        var p :| p in d1 && t in RelatedBy(sel, p.0, p.1, x);
        assert p in d2;
      }
      forall t | t in IncompatibleIn(vars, sel, d1, x) ensures t in IncompatibleIn(vars, sel, d2, x) {
        var p :| p in d1 && t in OutsideBy(vars, sel, p.0, p.1, x) + OwnBy(sel, p.0, p.1, x);
        assert p in d2;
      }
    }
  }
}
