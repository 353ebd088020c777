/**
 * `analyzeConditions` (js/modules/utils.js:100-132): flattens a condition
 * into the variables it mentions and, per variable, the values it allows.
 */
module Analysis {
  import opened Conditions

  /** A (key, value) pair met while walking a condition. */
  type Pair = (string, Token)

  /** `Object.entries(obj)` of a condition object. */
  function EntryPairs(es: seq<Entry>): seq<Pair>
  {
    seq(|es|, k requires 0 <= k < |es| => (es[k].Key(), TokenOf(es[k])))
  }

  /**
   * The entries of every child of an `anyOf`, read flat: a child's nested
   * `allOf`/`anyOf` key is recorded as a pair like any other.
   */
  function ChildEntryPairs(items: seq<Cond>): seq<Pair> {
    if items == [] then []
    else ChildEntryPairs(items[..|items| - 1]) + EntryPairs(items[|items| - 1].entries)
  }

  /**
   * The pairs `processCondition` records, in order: under `allOf` it
   * recurses into each child; under `anyOf` it reads each child's own
   * entries without recursing; otherwise it reads the object's entries.
   */
  function Reached(c: Cond): seq<Pair>
    decreases c, 1
  {
    if HasAllOf(c) then ReachedAll(c.entries[AllOfIndex(c.entries)].items)
    else if HasAnyOf(c) then ChildEntryPairs(c.entries[AnyOfIndex(c.entries)].items)
    else EntryPairs(c.entries)
  }

  /** The pairs recorded for the children of an `allOf`, in order. */
  function ReachedAll(items: seq<Cond>): seq<Pair>
    decreases items, 0
  {
    if items == [] then [] else ReachedAll(items[..|items| - 1]) + Reached(items[|items| - 1])
  }

  /** The keys of a pair sequence. */
  function Keys(ps: seq<Pair>): seq<string>
  {
    seq(|ps|, k requires 0 <= k < |ps| => ps[k].0)
  }

  /** Insertion into a JavaScript `Set`, read back as an array: first occurrences in order. */
  function Dedup(xs: seq<string>): (r: seq<string>)
    ensures forall i, j | 0 <= i < j < |r| :: r[i] != r[j]
    ensures forall x :: x in r <==> x in xs
  {
    if xs == [] then []
    else
      var d := Dedup(xs[..|xs| - 1]);
      if xs[|xs| - 1] in d then d else d + [xs[|xs| - 1]]
  }

  /** The values paired with key `x`. */
  function ValuesFor(ps: seq<Pair>, x: string): set<Token> {
    set p | p in ps && p.0 == x :: p.1
  }

  /** The `allowedValues` object built from a pair sequence. */
  function AllowedOf(ps: seq<Pair>): map<string, set<Token>> {
    map x | x in (set p | p in ps :: p.0) :: ValuesFor(ps, x)
  }

  /** `requiredVars` of `analyzeConditions(c)`. */
  function RequiredVars(c: Cond): seq<string> {
    Dedup(Keys(Reached(c)))
  }

  /** `allowedValues` of `analyzeConditions(c)`. */
  function AllowedValues(c: Cond): map<string, set<Token>> {
    AllowedOf(Reached(c))
  }

  /** `allowedValues[x]`, or no values when `x` is not a key. */
  function AllowedFor(c: Cond, x: string): set<Token> {
    var av := AllowedValues(c);
    if x in av then av[x] else {}
  }

  /**
   * Every reached pair is recorded in both outputs; `requiredVars` lists
   * each variable once and is exactly the key set of `allowedValues`.
   */
  lemma AnalysisConsistent(c: Cond)
    ensures forall i, j | 0 <= i < j < |RequiredVars(c)| :: RequiredVars(c)[i] != RequiredVars(c)[j]
    ensures forall x :: x in RequiredVars(c) <==> x in AllowedValues(c)
    ensures forall p | p in Reached(c) :: p.0 in RequiredVars(c) && p.1 in AllowedFor(c, p.0)
    ensures forall x, t :: t in AllowedFor(c, x) <==> (x, t) in Reached(c)
  {
    var ps := Reached(c);
    RequiredAreKeys(c);
    forall p | p in ps ensures p.0 in RequiredVars(c) {
      var k :| 0 <= k < |ps| && ps[k] == p;
      assert Keys(ps)[k] == p.0;
    }
  }

  /** `requiredVars` holds exactly the keys of `allowedValues`. */
  lemma RequiredAreKeys(c: Cond)
    ensures forall x :: x in RequiredVars(c) <==> x in AllowedValues(c)
  {
    var ps := Reached(c);
    forall x ensures x in RequiredVars(c) <==> x in AllowedValues(c) {
      if x in Keys(ps) {
        var k :| 0 <= k < |ps| && Keys(ps)[k] == x;
        assert ps[k] in ps;
      }
      if x in AllowedValues(c) {
        var p :| p in ps && p.0 == x;
        var k :| 0 <= k < |ps| && ps[k] == p;
        assert Keys(ps)[k] == x;
      }
    }
  }

  /** Under `allOf`, the children are walked one after another. */
  lemma AllOfConcatenates(items: seq<Cond>, i: nat)
    requires i < |items|
    ensures ReachedAll(items[..i + 1]) == ReachedAll(items[..i]) + Reached(items[i])
  {
    assert items[..i + 1][..i] == items[..i];
  }

  /**
   * A nested group inside an `anyOf` child is not walked: its key is
   * recorded as though it were a variable name.
   */
  lemma AnyOfChildNotRecursed(inner: seq<Cond>)
    ensures RequiredVars(Cond([AnyOf([Cond([AllOf(inner)])])])) == ["allOf"]
    ensures AllowedFor(Cond([AnyOf([Cond([AllOf(inner)])])]), "allOf") == {Arr(inner)}
  {
    var c := Cond([AnyOf([Cond([AllOf(inner)])])]);
    assert !HasAllOf(c) && HasAnyOf(c);
    var items := [Cond([AllOf(inner)])];
    assert items[..0] == [];
    assert ChildEntryPairs(items) == EntryPairs([AllOf(inner)]);
    assert Reached(c) == [("allOf", Arr(inner))];
    assert Keys(Reached(c)) == ["allOf"];
    assert Dedup(["allOf"]) == ["allOf"] by {
      assert ["allOf"][..0] == [];
    }
  }

  /** Recording one more pair: the `Set.add` and `allowedValues[x].add` steps. */
  lemma RecordStep(ps: seq<Pair>, p: Pair)
    ensures Dedup(Keys(ps + [p])) ==
            (if p.0 in Dedup(Keys(ps)) then Dedup(Keys(ps)) else Dedup(Keys(ps)) + [p.0])
    ensures AllowedOf(ps + [p]) ==
            AllowedOf(ps)[p.0 := (if p.0 in AllowedOf(ps) then AllowedOf(ps)[p.0] else {}) + {p.1}]
  {
    assert Keys(ps + [p])[..|ps|] == Keys(ps);
    AllowedStep(ps, p);
  }

  /** `allowedValues[x] ||= new Set(); allowedValues[x].add(t)`. */
  lemma AllowedStep(ps: seq<Pair>, p: Pair)
    ensures AllowedOf(ps + [p]) ==
            AllowedOf(ps)[p.0 := (if p.0 in AllowedOf(ps) then AllowedOf(ps)[p.0] else {}) + {p.1}]
  {
    var a, b := AllowedOf(ps + [p]), AllowedOf(ps);
    var b' := b[p.0 := (if p.0 in b then b[p.0] else {}) + {p.1}];
    forall x ensures x in a <==> x in b' {
      if x in b {
        var q :| q in ps && q.0 == x;
        assert q in ps + [p];
      }
      if x in a && x != p.0 {
        var q :| q in ps + [p] && q.0 == x;
        assert q in ps;
      }
      if x == p.0 {
        assert p in ps + [p];
      }
    }
    forall x | x in a ensures a[x] == b'[x] {
      assert ValuesFor(ps + [p], x) == ValuesFor(ps, x) + (if p.0 == x then {p.1} else {});
    }
  }

  /**
   * `analyzeConditions(c)`: walks `c` with one shared `requiredVars` set and
   * `allowedValues` object and returns both.
   */
  method AnalyzeConditions(c: Cond) returns (requiredVars: seq<string>, allowedValues: map<string, set<Token>>)
    ensures requiredVars == RequiredVars(c) && allowedValues == AllowedValues(c)
    ensures forall x :: x in requiredVars <==> x in allowedValues
  {
    assert Keys([]) == [];
    assert AllowedOf([]) == map[];
    requiredVars, allowedValues := ProcessCondition(c, [], [], map[]);
    assert [] + Reached(c) == Reached(c);
    AnalysisConsistent(c);
  }

  /** Pairs recorded so far, as the two accumulators hold them. */
  predicate Tracks(ps: seq<Pair>, rv: seq<string>, av: map<string, set<Token>>) {
    rv == Dedup(Keys(ps)) && av == AllowedOf(ps)
  }

  /** `processCondition(condition)`, adding to the accumulators it is handed. */
  method ProcessCondition(c: Cond, ghost done: seq<Pair>, rv: seq<string>, av: map<string, set<Token>>)
    returns (rv': seq<string>, av': map<string, set<Token>>)
    requires Tracks(done, rv, av)
    ensures Tracks(done + Reached(c), rv', av')
    decreases c, 1
  {
    if HasAllOf(c) {
      rv', av' := ProcessAllOf(c.entries[AllOfIndex(c.entries)].items, done, rv, av);
    } else if HasAnyOf(c) {
      rv', av' := ProcessAnyOf(c.entries[AnyOfIndex(c.entries)].items, done, rv, av);
    } else {
      rv', av' := RecordEntries(c.entries, done, rv, av);
    }
  }

  /** `condition.allOf.forEach(processCondition)`. */
  method ProcessAllOf(items: seq<Cond>, ghost done: seq<Pair>, rv: seq<string>, av: map<string, set<Token>>)
    returns (rv': seq<string>, av': map<string, set<Token>>)
    requires Tracks(done, rv, av)
    ensures Tracks(done + ReachedAll(items), rv', av')
    decreases items, 0
  {
    rv', av' := rv, av;
    ghost var seen := done;
    assert items[..0] == [];
    for i := 0 to |items|
      invariant seen == done + ReachedAll(items[..i])
      invariant Tracks(seen, rv', av')
    {
      AllOfConcatenates(items, i);
      rv', av' := ProcessCondition(items[i], seen, rv', av');
      seen := seen + Reached(items[i]);
    }
    assert items[..|items|] == items;
  }

  /** `condition.anyOf.forEach(c => Object.entries(c).forEach(...))`. */
  method ProcessAnyOf(items: seq<Cond>, ghost done: seq<Pair>, rv: seq<string>, av: map<string, set<Token>>)
    returns (rv': seq<string>, av': map<string, set<Token>>)
    requires Tracks(done, rv, av)
    ensures Tracks(done + ChildEntryPairs(items), rv', av')
  {
    rv', av' := rv, av;
    ghost var seen := done;
    assert items[..0] == [];
    for i := 0 to |items|
      invariant seen == done + ChildEntryPairs(items[..i])
      invariant Tracks(seen, rv', av')
    {
      assert items[..i + 1][..i] == items[..i];
      rv', av' := RecordEntries(items[i].entries, seen, rv', av');
      seen := seen + EntryPairs(items[i].entries);
    }
    assert items[..|items|] == items;
  }

  /** `Object.entries(obj).forEach(...)`: records every entry of one object. */
  method RecordEntries(es: seq<Entry>, ghost done: seq<Pair>, rv: seq<string>, av: map<string, set<Token>>)
    returns (rv': seq<string>, av': map<string, set<Token>>)
    requires Tracks(done, rv, av)
    ensures Tracks(done + EntryPairs(es), rv', av')
  {
    rv', av' := rv, av;
    assert done + EntryPairs(es[..0]) == done;
    for k := 0 to |es|
      invariant Tracks(done + EntryPairs(es[..k]), rv', av')
    {
      EntryPairsStep(es, k, done);
      rv', av' := Record(es[k].Key(), TokenOf(es[k]), done + EntryPairs(es[..k]), rv', av');
    }
    assert es[..|es|] == es;
  }

  /** Reading one more entry of an object appends its pair. */
  lemma EntryPairsStep(es: seq<Entry>, k: nat, done: seq<Pair>)
    requires k < |es|
    ensures done + EntryPairs(es[..k + 1]) == (done + EntryPairs(es[..k])) + [(es[k].Key(), TokenOf(es[k]))]
  {
  }

  /** `requiredVars.add(x)`, then `allowedValues[x].add(t)` (creating the set if absent). */
  method Record(x: string, t: Token, ghost ps: seq<Pair>, rv: seq<string>, av: map<string, set<Token>>)
    returns (rv': seq<string>, av': map<string, set<Token>>)
    requires Tracks(ps, rv, av)
    ensures Tracks(ps + [(x, t)], rv', av')
  {
    RecordStep(ps, (x, t));
    rv', av' := rv, av;
    if x !in rv' {
      rv' := rv' + [x];
    }
    if x !in av' {
      av' := av'[x := {}];
    }
    av' := av'[x := av'[x] + {t}];
  }
}
