/** The parsed YAML document the core walks. The parser itself is not part of
    this model; it is taken to produce this tree. */
module Yaml {
  import opened Entry

  /** A YAML node: a scalar with its literal text, a sequence, a mapping, or
      YAML `null`. */
  datatype Node = Scalar(text: string) | Seq(items: seq<Node>) | Map(entries: map<string, Node>) | Null

  type Mapping = map<string, Node>

  /** `mapping.yamlMapping(key)`: the mapping under `key`, or `null` when the
      key is absent or holds something else. */
  function ChildMapping(m: Mapping, key: string): (r: Option<Mapping>)
    ensures r.Some? <==> key in m && m[key].Map?
    ensures r.Some? ==> r.value == m[key].entries
  {
    if key in m && m[key].Map? then Some(m[key].entries) else None
  }
}
