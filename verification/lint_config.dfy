/** A flat-config fragment, split into the two properties the remappers rewrite
    and everything else. */
module LintConfig {
  import opened Wrappers
  import opened Dicts
  import opened Js

  /** One configuration fragment. `plugins` maps a namespace to its plugin object
      and `rules` maps a rule id to its setting; `None` stands for a property that
      is absent or falsy. `fields` holds every other property, never interpreted. */
  datatype Config = Config(fields: Dict<Value>, plugins: Option<Dict<Value>>, rules: Option<Dict<Value>>)
}
