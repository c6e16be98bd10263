/** The intermediate representation the grammar produces and the code generator consumes.
    Only the two node kinds built by the parser are modelled. */
module Ir {

  /** An element tag: a bare identifier names a builtin element, a string literal a custom one. */
  datatype ElementTag =
    | Builtin(name: string)
    | Custom(name: string)

  /** The six attribute descriptors. */
  datatype AttributeType =
    | Ref                          // `ref`
    | DangerouslySetInnerHtml      // `dangerously_set_inner_html`
    | Event(event: string)         // `on:<event>`
    | Bind(prop: string)           // `bind:<prop>`
    | Bool(name: string)           // a boolean attribute
    | Str(name: string)            // any other plain attribute
}
