/**
 * The schema document the engine reads: variables, their values and their
 * conditions, as a parsed JSON object.
 */
module Document {
  import opened Wrappers
  import opened Conditions

  /**
   * A value object `{name?, description?, conditions?}`. Enum values carry a
   * `name`, info values a `description`; a missing `conditions` is `Empty`.
   */
  datatype Value = Value(name: Option<string>, description: Option<string>, conditions: Cond)

  /**
   * A variable object. Every reader of `type` and `description` tests them
   * for truthiness or falls back with `||`, so "" stands for a missing
   * property; `values` may be missing, which some readers do not survive.
   */
  datatype Variable = Variable(
    name: string,
    vtype: string,
    description: string,
    conditions: Cond,
    values: Option<seq<Value>>)

  /** `{variables?: [...]}`. */
  datatype Schema = Schema(variables: Option<seq<Variable>>)

  /** `variable.values || []`. */
  function Vals(u: Variable): seq<Value> {
    if u.values.Some? then u.values.value else []
  }

  /** `schema.variables || []`. */
  function Vars(s: Schema): seq<Variable> {
    if s.variables.Some? then s.variables.value else []
  }

  /** `variable.type === 'enum'`. */
  predicate IsEnum(u: Variable) {
    u.vtype == "enum"
  }
}
