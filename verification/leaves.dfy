/**
 The named symbolic leaves: a `Variable` is an observed quantity (one value
 per dataset row), a `Parameter` a scalar to be fitted. Each constructed
 object has its own identity token `id`, distinct from its `name`: two leaves
 may share a name and still be different objects.
 */
module Leaves {
  import opened Wrappers
  import opened Identity

  /** The symbolic input a leaf registers with the expression engine. */
  datatype Handle = VectorInput(varId: Id, name: string) | ScalarInput(paramId: Id, name: string)

  datatype Variable = Variable(id: Id, name: string, labelText: string) {
    /** `T.vector(name)`: one entry per dataset row. */
    function Handle(): (h: Handle)
      ensures h.VectorInput? && h.varId == id && h.name == name
    {
      VectorInput(id, name)
    }
  }

  datatype Parameter = Parameter(id: Id, name: string, labelText: string, lower: Option<real>, upper: Option<real>) {
    /** `T.scalar(name)`. */
    function Handle(): (h: Handle)
      ensures h.ScalarInput? && h.paramId == id && h.name == name
    {
      ScalarInput(id, name)
    }
  }

  function VarKey(v: Variable): Id { v.id }
  function ParamKey(p: Parameter): Id { p.id }

  /** Python truthiness of an optional string label: absent and empty are false. */
  predicate Truthy(given: Option<string>) {
    given.Some? && given.value != ""
  }

  /** The label a leaf ends up with: the one given when it is truthy, the name otherwise. */
  function LabelOrName(name: string, given: Option<string>): (l: string)
    ensures Truthy(given) ==> l == given.value
    ensures !Truthy(given) ==> l == name
  {
    if Truthy(given) then given.value else name
  }

  /**
   `var(name, label)` / `Variable(name, label)`, with the label argument as
   `given`; `id` stands for the identity of the object being constructed.
   */
  function NewVariable(id: Id, name: string, given: Option<string>): (v: Variable)
    ensures v.id == id && v.name == name
    ensures given.Some? && given.value != "" ==> v.labelText == given.value
    ensures given.None? || given == Some("") ==> v.labelText == name
  {
    Variable(id, name, LabelOrName(name, given))
  }

  /** `par(name, label, lower, upper)` / `Parameter(...)`: the bounds are stored unchanged. */
  function NewParameter(id: Id, name: string, given: Option<string>, lower: Option<real>, upper: Option<real>): (p: Parameter)
    ensures p.id == id && p.name == name
    ensures given.Some? && given.value != "" ==> p.labelText == given.value
    ensures given.None? || given == Some("") ==> p.labelText == name
    ensures p.lower == lower && p.upper == upper
  {
    Parameter(id, name, LabelOrName(name, given), lower, upper)
  }
}
