/**
  The records of green_tailbeast.py and the mapping from an element tree to them,
  written as pure functions. The folds over children are defined from the back
  (`F(s) == Step(F(s[..|s| - 1]), s[|s| - 1])`) so that they follow the parser's
  loops, which append one child at a time in document order.
*/
module Events {
  import opened ElementTree

  /** One choice of an event. `text` is the option_text element's text, which the
      parser copies without a default, so it may be None. */
  datatype EventOption = EventOption(text: Option<string>, hiddenText: Option<string>, destinations: seq<string>)

  /** A named narrative event. `name` is the event_name element's text (None when empty). */
  datatype Event = Event(name: Option<string>, texts: seq<string>, options: seq<EventOption>)

  /** Reading `.text` of a required child that is missing: the parser stops with an
      attribute error on the None that `find` returned. */
  datatype Fault = MissingChild(tag: string)

  datatype Result<+T> = Success(value: T) | Failure(fault: Fault)

  /** The parser's result: event name to event. */
  type EventTable = map<Option<string>, Event>

  /** Python's `text or ""`. */
  function OrEmpty(text: Option<string>): string
  {
    if text.Some? then text.value else ""
  }

  /** The text of the required child `tag` of `e`; fails when there is no such child. */
  function RequiredText(e: Element, tag: string): Result<Option<string>>
  {
    match Find(e, tag)
    case None => Failure(MissingChild(tag))
    case Some(child) => Success(child.text)
  }

  /** The entry one text_break contributes to an event's texts. */
  function BreakText(textBreak: Element): string
  {
    match Find(textBreak, "text")
    case None => ""
    case Some(text) => OrEmpty(text.text)
  }

  /** The texts of an event: one entry per text_break of its event_body, in order. */
  function EventTexts(event: Element): seq<string>
  {
    match Find(event, "event_body")
    case None => []
    case Some(body) =>
      var breaks := FindAll(body, "text_break");
      seq(|breaks|, i requires 0 <= i < |breaks| => BreakText(breaks[i]))
  }

  /** Whether a destination element has a destination_id child. */
  predicate HasId(destination: Element)
  {
    Find(destination, "destination_id").Some?
  }

  /** What one destination element contributes: its id's text (or "") when it has
      a destination_id child, nothing otherwise. */
  function DestinationEntry(destination: Element): seq<string>
  {
    if HasId(destination) then [OrEmpty(Find(destination, "destination_id").value.text)] else []
  }

  /** The ids of a sequence of destination elements, in order. */
  function DestinationIds(destinations: seq<Element>): seq<string>
  {
    if destinations == [] then []
    else
      var n := |destinations| - 1;
      DestinationIds(destinations[..n]) + DestinationEntry(destinations[n])
  }

  /** The destinations of an event_option element. */
  function OptionDestinations(option: Element): seq<string>
  {
    match Find(option, "destinations")
    case None => []
    case Some(destinations) => DestinationIds(FindAll(destinations, "destination"))
  }

  /** The hidden text of an event_option element: the text of its
      hidden_message_text child, None when there is no such child. */
  function HiddenText(option: Element): Option<string>
  {
    match Find(option, "hidden_message_text")
    case None => None
    case Some(hidden) => hidden.text
  }

  /** One event_option element as a record; fails when option_text is missing. */
  function OptionOf(option: Element): (r: Result<EventOption>)
    ensures r.Failure? <==> Find(option, "option_text").None?
    ensures r.Failure? ==> r.fault == MissingChild("option_text")
    ensures r.Success? ==> r.value.text == Find(option, "option_text").value.text
  {
    match RequiredText(option, "option_text")
    case Failure(f) => Failure(f)
    case Success(text) => Success(EventOption(text, HiddenText(option), OptionDestinations(option)))
  }

  /** The result of every element of a sequence of event_option elements. */
  function OptionResults(options: seq<Element>): seq<Result<EventOption>>
  {
    seq(|options|, i requires 0 <= i < |options| => OptionOf(options[i]))
  }

  /** The options of an event element, in document order. */
  function EventOptions(event: Element): Result<seq<EventOption>>
  {
    match Find(event, "event_options")
    case None => Success([])
    case Some(options) => AllOk(OptionResults(FindAll(options, "event_option")))
  }

  /** One event element as a record: its name is read first, then its texts and options. */
  function EventOf(event: Element): (r: Result<Event>)
    ensures r.Success? ==> Find(event, "event_name").Some? && r.value.name == Find(event, "event_name").value.text
    ensures Find(event, "event_name").None? ==> r == Failure(MissingChild("event_name"))
  {
    match RequiredText(event, "event_name")
    case Failure(f) => Failure(f)
    case Success(name) =>
      match EventOptions(event)
      case Failure(f) => Failure(f)
      case Success(options) => Success(Event(name, EventTexts(event), options))
  }

  /** All the values when every result is a success, otherwise the fault of the
      first failure: the parser raises at the first missing required child, so it
      never returns part of its result. */
  function AllOk<T>(results: seq<Result<T>>): (r: Result<seq<T>>)
    ensures r.Success? <==> forall i :: 0 <= i < |results| ==> results[i].Success?
    ensures r.Success? ==> |r.value| == |results|
    ensures r.Success? ==> forall i :: 0 <= i < |results| ==> results[i] == Success(r.value[i])
  {
    if results == [] then Success([])
    else
      var n := |results| - 1;
      match AllOk(results[..n])
      case Failure(f) => Failure(f)
      case Success(values) =>
        match results[n]
        case Failure(f) => Failure(f)
        case Success(v) => Success(values + [v])
  }

  /** The table built from events in order, each one stored under its name and
      overwriting an earlier entry with the same name. */
  function Table(events: seq<Event>): (t: EventTable)
    ensures forall k :: k in t ==> t[k].name == k
  {
    if events == [] then map[]
    else
      var n := |events| - 1;
      var event := events[n];
      Table(events[..n])[event.name := event]
  }

  /** The result of every element of a sequence of event elements. */
  function EventResults(events: seq<Element>): seq<Result<Event>>
  {
    seq(|events|, i requires 0 <= i < |events| => EventOf(events[i]))
  }

  /** A sequence of event elements as a table; the first fault stops the parse. */
  function TableOf(events: seq<Element>): Result<EventTable>
  {
    match AllOk(EventResults(events))
    case Failure(f) => Failure(f)
    case Success(built) => Success(Table(built))
  }

  /** The whole parse, from the root element of the document. */
  function ParseTree(root: Element): Result<EventTable>
  {
    TableOf(FindAll(root, "event"))
  }
}
