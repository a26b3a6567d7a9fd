/** The demo application: a click counter and the view that shows it
    (shared/src/lib.rs). */
module Shared {
  import opened Vdom
  import Text

  const U32_MAX: nat := 4294967295

  /** Rust's `u32`. */
  type U32 = n: nat | n <= U32_MAX

  datatype Model = Model(area: string, counter: U32)

  /** The handler functions a binding may carry; `Model::on_click` is the
      only one the application defines. */
  datatype Handler = OnClickHandler

  /** `Model::new`: the given area, counter at zero. */
  function NewModel(area: string): (m: Model)
    ensures m.area == area
    ensures m.counter == 0
  {
    Model(area, 0)
  }

  /** `Model::on_click`. The `u32` addition would overflow at `U32_MAX`,
      which the precondition rules out. */
  function OnClick(m: Model): (r: Model)
    requires m.counter < U32_MAX
    ensures r.counter == m.counter + 1
    ensures r.area == m.area
  {
    m.(counter := m.counter + 1)
  }

  /** Runs the handler a registration stores on the model. */
  function Apply(h: Handler, m: Model): (r: Model)
    requires m.counter < U32_MAX
    ensures r.area == m.area
    ensures r.counter == m.counter + 1
  {
    match h
    case OnClickHandler => OnClick(m)
  }

  const Greeting := "Hello from "
  const Middle := " of your full-stack Rust app! Counter is "

  /** The text of the paragraph the view renders. */
  function Caption(m: Model): string
  {
    Greeting + m.area + Middle + Text.Decimal(m.counter)
  }

  /** The caption determines the counter: the digits after the fixed text
      read back as the counter. */
  lemma CaptionRecoversCounter(m: Model)
    ensures var c := Caption(m);
      var start := |Greeting| + |m.area| + |Middle|;
      && start < |c|
      && c[..|Greeting|] == Greeting
      && c[|Greeting|..|Greeting| + |m.area|] == m.area
      && c[|Greeting| + |m.area|..start] == Middle
      && Text.AllDigits(c[start..])
      && Text.ParseDecimal(c[start..]) == m.counter
  {
    var c := Caption(m);
    var start := |Greeting| + |m.area| + |Middle|;
    assert c[start..] == Text.Decimal(m.counter);
    Text.ParseDecimalOfDecimal(m.counter);
  }

  /** Two models with areas of the same length show the same caption only
      when they are the same model. */
  lemma CaptionInjective(m1: Model, m2: Model)
    requires |m1.area| == |m2.area|
    requires Caption(m1) == Caption(m2)
    ensures m1 == m2
  {
    var start := |Greeting| + |m1.area| + |Middle|;
    CaptionRecoversCounter(m1);
    CaptionRecoversCounter(m2);
    assert Caption(m1)[start..] == Caption(m2)[start..];
  }

  /** The `Helper` trait's one method, as a function value: given the
      helper's state, an event name, options and a handler, it returns the
      helper's new state and the binding slice to attach. */
  type EventBindingFn<!H> = (H, string, EventBindingOptions, Handler) -> (H, seq<EventBinding>)

  /** `view`: one `P` element with no attributes, whose only child is the
      caption, bound through exactly one `event_binding` call for `click`. */
  function View<H>(m: Model, helper: H, eventBinding: EventBindingFn<H>): (r: (Node, H))
    ensures r.0.HtmlElement?
    ensures r.0.name == "P" && r.0.attributes == []
    ensures r.0.content == Text(Caption(m))
    ensures (r.1, r.0.eventBindings) == eventBinding(helper, "click", DefaultOptions, OnClickHandler)
  {
    var (h, bindings) := eventBinding(helper, "click", DefaultOptions, OnClickHandler);
    (HtmlElement("P", [], Text(Caption(m)), bindings), h)
  }

  /** The `()` helper: no bindings, whatever it is asked for. */
  function UnitEventBinding(h: (), name: string, options: EventBindingOptions, callback: Handler): (r: ((), seq<EventBinding>))
    ensures r.1 == []
  {
    ((), [])
  }

  /** Rendered with the `()` helper, the view carries no event binding at all. */
  lemma UnitHelperViewHasNoBindings(m: Model)
    ensures Bindings(View(m, (), UnitEventBinding).0) == []
  {
  }
}
