/** The attribute maps that the external-name functions read and write. */
module TerraformState {

  /** A value of an attribute map. Only strings pass the type assertions made on them. */
  datatype Attribute = Str(s: string) | Other

  type State = map<string, Attribute>

  /** The checked type assertion on an entry, with its zero value on failure. */
  function StringField(state: State, field: string): string {
    if field in state && state[field].Str? then state[field].s else ""
  }
}
