/** The records that stand for the debugger's own objects: a value handle, a field
    descriptor of a composite type, and a labelled child of a rendered tree node. */
module Host {
  import opened Wrappers

  /** A debugger value, reduced to the address it designates and the text of its
      type: its own location for an object, the target address for a pointer. */
  datatype Value = Value(addr: int, typeName: string)

  /** One field of a composite type, in declaration order. `bitpos` is absent for a
      static (class-level) member, which has no storage in the object. */
  datatype Field = Field(name: string, isBaseClass: bool, bitpos: Option<int>)

  /** What a child entry of a tree node shows. */
  datatype ChildValue =
    | FieldValue(field: string)   // `val[name]`
    | BaseValue(base: string)     // `val` cast to a reference to its base class
    | Synthetic(tag: Value)       // a tag built by the codec, expanded on re-dispatch
    | Unexpandable(host: Value)   // `val` cast to a zero-length array: shown, never expanded
    | Computed(result: Value)     // what an accessor or an element generator produced

  datatype Child = Child(name: string, value: ChildValue)

  function Labels(cs: seq<Child>): (ls: seq<string>)
    ensures |ls| == |cs| && forall k :: 0 <= k < |cs| ==> ls[k] == cs[k].name
  {
    if cs == [] then [] else [cs[0].name] + Labels(cs[1..])
  }

  /** `"<" + name + ">"`, the label a synthetic node is shown under. */
  function Angle(name: string): string {
    "<" + name + ">"
  }
}
