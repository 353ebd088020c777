/**
 * Condition objects and `evaluateConditions` (js/modules/utils.js:22-41).
 *
 * A condition is a JavaScript object whose keys keep their insertion order.
 * A key `allOf` or `anyOf` holds an array of nested conditions; any other
 * key names a variable and holds the value it requires.
 */
module Conditions {
  import JsText

  /** One key/value pair of a condition object. */
  datatype Entry =
    | AllOf(items: seq<Cond>)
    | AnyOf(items: seq<Cond>)
    | Leaf(variable: string, required: string)
  {
    /** The object key this entry stands under. */
    function Key(): string {
      match this
      case AllOf(_) => "allOf"
      case AnyOf(_) => "anyOf"
      case Leaf(v, _) => v
    }
  }

  /** A condition object: its entries in key order. */
  datatype Cond = Cond(entries: seq<Entry>)

  /**
   * `{}`. Every reader of a `conditions` property treats a missing property
   * exactly like `{}`, so the model uses `Empty` for both.
   */
  const Empty: Cond := Cond([])

  /**
   * A JavaScript value that can stand on the right of a condition key or in
   * a relationship set: `undefined`, a string, or an array of conditions.
   */
  datatype Token = Undefined | Str(s: string) | Arr(elems: seq<Cond>)

  /** The value stored under an entry's key. */
  function TokenOf(e: Entry): Token {
    match e
    case Leaf(_, x) => Str(x)
    case AllOf(items) => Arr(items)
    case AnyOf(items) => Arr(items)
  }

  /**
   * `String(value)`: a string stays itself; an array of condition objects
   * prints one "[object Object]" per element, joined by ",".
   */
  function TokenString(t: Token): string {
    match t
    case Undefined => "undefined"
    case Str(s) => s
    case Arr(items) => JsText.Join(seq(|items|, k requires 0 <= k < |items| => "[object Object]"), ",")
  }

  /**
   * What a selection map holds for one variable: an array of chosen value
   * names, or the single string the dynamic form stores.
   */
  datatype Choice = Many(values: seq<string>) | One(text: string)

  /** The selection state: variable name to what is chosen for it. */
  type Selections = map<string, Choice>

  /** `(selections[x] || []).length === 0`: nothing is chosen for `x`. */
  predicate Unconstrained(sel: Selections, x: string) {
    x !in sel || (match sel[x] case Many(vs) => |vs| == 0 case One(t) => |t| == 0)
  }

  /** `choice.includes(v)`: array membership, or substring search on a string. */
  predicate Includes(choice: Choice, v: string) {
    match choice
    case Many(vs) => v in vs
    case One(t) => JsText.Includes(t, v)
  }

  /** The test a leaf entry `{x: v}` puts on the selections. */
  predicate LeafHolds(sel: Selections, x: string, v: string) {
    Unconstrained(sel, x) || Includes(sel[x], v)
  }

  /** Index of the first `allOf` entry, or `|es|` when there is none. */
  function AllOfIndex(es: seq<Entry>): (i: nat)
    ensures i <= |es|
    ensures i < |es| ==> es[i].AllOf?
    ensures forall k | 0 <= k < i :: !es[k].AllOf?
  {
    if es == [] || es[0].AllOf? then 0 else 1 + AllOfIndex(es[1..])
  }

  /** Index of the first `anyOf` entry, or `|es|` when there is none. */
  function AnyOfIndex(es: seq<Entry>): (i: nat)
    ensures i <= |es|
    ensures i < |es| ==> es[i].AnyOf?
    ensures forall k | 0 <= k < i :: !es[k].AnyOf?
  {
    if es == [] || es[0].AnyOf? then 0 else 1 + AnyOfIndex(es[1..])
  }

  /** `conditions.allOf` is truthy: the object has an `allOf` key. */
  predicate HasAllOf(c: Cond) {
    AllOfIndex(c.entries) < |c.entries|
  }

  /** `conditions.anyOf` is truthy: the object has an `anyOf` key. */
  predicate HasAnyOf(c: Cond) {
    AnyOfIndex(c.entries) < |c.entries|
  }

  /**
   * `evaluateConditions(c, sel)`: an object without keys holds; an `allOf`
   * key decides alone, by "every child holds"; otherwise an `anyOf` key
   * decides alone, by "some child holds"; otherwise every leaf must hold.
   */
  function Evaluate(c: Cond, sel: Selections): (r: bool)
    ensures c.entries == [] ==> r
    decreases c
  {
    if c.entries == [] then true
    else if HasAllOf(c) then
      var items := c.entries[AllOfIndex(c.entries)].items;
      forall k | 0 <= k < |items| :: Evaluate(items[k], sel)
    else if HasAnyOf(c) then
      var items := c.entries[AnyOfIndex(c.entries)].items;
      exists k | 0 <= k < |items| :: Evaluate(items[k], sel)
    else
      forall k | 0 <= k < |c.entries| :: LeafHolds(sel, c.entries[k].variable, c.entries[k].required)
  }

  /**
   * An `allOf` key decides by "every child holds" (vacuously true when the
   * array is empty), whatever `anyOf` or leaf keys stand beside it.
   */
  lemma AllOfDecides(before: seq<Entry>, items: seq<Cond>, after: seq<Entry>, sel: Selections)
    requires forall k | 0 <= k < |before| :: !before[k].AllOf?
    ensures Evaluate(Cond(before + [AllOf(items)] + after), sel)
            <==> forall k | 0 <= k < |items| :: Evaluate(items[k], sel)
  {
    var es := before + [AllOf(items)] + after;
    assert es[|before|] == AllOf(items);
    assert AllOfIndex(es) == |before|;
  }

  /**
   * Without an `allOf` key, an `anyOf` key decides by "some child holds",
   * whatever leaf keys stand beside it; an empty `anyOf` array fails.
   */
  lemma AnyOfDecides(before: seq<Entry>, items: seq<Cond>, after: seq<Entry>, sel: Selections)
    requires forall k | 0 <= k < |before| :: !before[k].AllOf? && !before[k].AnyOf?
    requires forall k | 0 <= k < |after| :: !after[k].AllOf?
    ensures Evaluate(Cond(before + [AnyOf(items)] + after), sel)
            <==> exists k | 0 <= k < |items| :: Evaluate(items[k], sel)
    ensures items == [] ==> !Evaluate(Cond(before + [AnyOf(items)] + after), sel)
  {
    var es := before + [AnyOf(items)] + after;
    assert es[|before|] == AnyOf(items);
    assert AnyOfIndex(es) == |before|;
    assert forall k | 0 <= k < |es| :: !es[k].AllOf? by {
      forall k | 0 <= k < |es| ensures !es[k].AllOf? {
        if k > |before| { assert es[k] == after[k - |before| - 1]; }
      }
    }
  }

  /**
   * A leaf map holds iff every one of its entries holds: the variable has
   * nothing chosen, or what is chosen includes the required value.
   */
  lemma LeafMapSemantics(es: seq<Entry>, sel: Selections)
    requires forall k | 0 <= k < |es| :: es[k].Leaf?
    ensures Evaluate(Cond(es), sel)
            <==> forall k | 0 <= k < |es| :: LeafHolds(sel, es[k].variable, es[k].required)
  {
    assert !HasAllOf(Cond(es)) && !HasAnyOf(Cond(es));
  }

  /** A variable that nothing is chosen for never makes a leaf fail. */
  lemma UnselectedNeverBlocks(x: string, v: string, sel: Selections)
    requires Unconstrained(sel, x)
    ensures Evaluate(Cond([Leaf(x, v)]), sel)
  {
    LeafMapSemantics([Leaf(x, v)], sel);
  }

  /** Every `anyOf` array anywhere in `c` has at least one child. */
  predicate NoEmptyAnyOf(c: Cond)
    decreases c
  {
    forall k | 0 <= k < |c.entries| ::
      match c.entries[k]
      case Leaf(_, _) => true
      case AllOf(items) => forall j | 0 <= j < |items| :: NoEmptyAnyOf(items[j])
      case AnyOf(items) => items != [] && forall j | 0 <= j < |items| :: NoEmptyAnyOf(items[j])
  }

  /**
   * Before anything is chosen, every condition without an empty `anyOf`
   * holds: unselected variables defer the decision.
   */
  lemma {:induction false} NothingSelectedPasses(c: Cond, sel: Selections)
    requires forall x | x in sel :: Unconstrained(sel, x)
    requires NoEmptyAnyOf(c)
    ensures Evaluate(c, sel)
    decreases c
  {
    if c.entries == [] {
    } else if HasAllOf(c) {
      var items := c.entries[AllOfIndex(c.entries)].items;
      forall k | 0 <= k < |items| ensures Evaluate(items[k], sel) {
        NothingSelectedPasses(items[k], sel);
      }
    } else if HasAnyOf(c) {
      var items := c.entries[AnyOfIndex(c.entries)].items;
      NothingSelectedPasses(items[0], sel);
    } else {
      forall k | 0 <= k < |c.entries|
        ensures LeafHolds(sel, c.entries[k].variable, c.entries[k].required)
      {
        var x := c.entries[k].variable;
        assert Unconstrained(sel, x);
      }
    }
  }

  /**
   * `{allOf: [{anyOf: [{A: x}, {A: y}]}, {B: z}]}` holds exactly when A is
   * unconstrained or includes x or y, and B is unconstrained or includes z.
   */
  lemma NestedExample(a: string, x: string, y: string, b: string, z: string, sel: Selections)
    ensures Evaluate(Cond([AllOf([Cond([AnyOf([Cond([Leaf(a, x)]), Cond([Leaf(a, y)])])]),
                                  Cond([Leaf(b, z)])])]), sel)
            <==> (LeafHolds(sel, a, x) || LeafHolds(sel, a, y)) && LeafHolds(sel, b, z)
  {
    var bz := Cond([Leaf(b, z)]);
    var either := Cond([AnyOf([Cond([Leaf(a, x)]), Cond([Leaf(a, y)])])]);
    EitherExample(a, x, y, sel);
    LeafMapSemantics(bz.entries, sel);
    AllOfDecides([], [either, bz], [], sel);
    assert [either, bz][0] == either && [either, bz][1] == bz;
  }

  /** `{anyOf: [{A: x}, {A: y}]}` holds exactly when A is unconstrained or includes x or y. */
  lemma EitherExample(a: string, x: string, y: string, sel: Selections)
    ensures Evaluate(Cond([AnyOf([Cond([Leaf(a, x)]), Cond([Leaf(a, y)])])]), sel)
            <==> LeafHolds(sel, a, x) || LeafHolds(sel, a, y)
  {
    var ax, ay := Cond([Leaf(a, x)]), Cond([Leaf(a, y)]);
    LeafMapSemantics(ax.entries, sel);
    LeafMapSemantics(ay.entries, sel);
    AnyOfDecides([], [ax, ay], [], sel);
    assert [ax, ay][0] == ax && [ax, ay][1] == ay;
  }

  /**
   * When the selection is one string, as the dynamic form stores it, a leaf
   * `{x: v}` holds iff the string is empty or contains `v` as a substring.
   */
  lemma StringSelectionIsSubstringTest(x: string, v: string, s: string)
    ensures Evaluate(Cond([Leaf(x, v)]), map[x := One(s)])
            <==> s == "" || JsText.Includes(s, v)
  {
    LeafMapSemantics([Leaf(x, v)], map[x := One(s)]);
  }

  /**
   * Consequently the single string "Hardcore" satisfies `{Level: "Hard"}`,
   * where an array selection `["Hardcore"]` does not.
   */
  lemma SubstringSelectionExample()
    ensures Evaluate(Cond([Leaf("Level", "Hard")]), map["Level" := One("Hardcore")])
    ensures !Evaluate(Cond([Leaf("Level", "Hard")]), map["Level" := Many(["Hardcore"])])
  {
    StringSelectionIsSubstringTest("Level", "Hard", "Hardcore");
    assert "Hard" <= "Hardcore";
    LeafMapSemantics([Leaf("Level", "Hard")], map["Level" := Many(["Hardcore"])]);
    assert "Hard" != "Hardcore";
  }
}
