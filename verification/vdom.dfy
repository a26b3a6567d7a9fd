/** The virtual tree the view builds and the differ consumes (the `lignin`
    node types), reduced to what the model reads. */
module Vdom {

  /** Listener options of an event binding. */
  datatype EventBindingOptions = EventBindingOptions(capture: bool, passive: bool)

  /** `EventBindingOptions::new()`: every flag off. */
  const DefaultOptions := EventBindingOptions(false, false)

  /** An event binding; `callback` identifies the callback registration it
      dispatches to, by its position in the renderer's registration list. */
  datatype EventBinding = EventBinding(name: string, options: EventBindingOptions, callback: nat)

  datatype Attribute = Attribute(name: string, value: string)

  datatype Node =
    | Text(text: string)
    | HtmlElement(name: string, attributes: seq<Attribute>, content: Node, eventBindings: seq<EventBinding>)

  /** Every event binding in the tree, outermost element first. */
  function Bindings(n: Node): seq<EventBinding>
  {
    match n
    case Text(_) => []
    case HtmlElement(_, _, content, bs) => bs + Bindings(content)
  }
}
