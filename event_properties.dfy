/**
  What the mapping from an element tree to events promises: the default rule of
  every optional node, order and count of each list, how faults stop the parse,
  and the keys and values of the resulting table.
*/
module EventProperties {
  import opened ElementTree
  import opened Events

  // ---------------------------------------------------------------------------
  // Texts
  // ---------------------------------------------------------------------------

  /** A text_break without a text child gives "", one whose first text child has
      no text gives "", otherwise that child's text. */
  lemma BreakTextRules(textBreak: Element, i: nat)
    ensures (forall j :: 0 <= j < |textBreak.children| ==> textBreak.children[j].tag != "text") ==>
              BreakText(textBreak) == ""
    ensures i < |textBreak.children| && textBreak.children[i].tag == "text" &&
            (forall j :: 0 <= j < i ==> textBreak.children[j].tag != "text") ==>
              BreakText(textBreak) == (match textBreak.children[i].text
                                       case None => ""
                                       case Some(s) => s)
  {
    if i < |textBreak.children| && textBreak.children[i].tag == "text" &&
       (forall j :: 0 <= j < i ==> textBreak.children[j].tag != "text") {
      FindFirstChild(textBreak, "text", i);
    }
  }

  /** An event without an event_body has no texts; otherwise one entry per
      text_break of the body, in document order. */
  lemma EventTextsShape(event: Element)
    ensures Find(event, "event_body").None? ==> EventTexts(event) == []
    ensures Find(event, "event_body").Some? ==>
              var breaks := FindAll(Find(event, "event_body").value, "text_break");
              |EventTexts(event)| == |breaks| &&
              forall i :: 0 <= i < |breaks| ==> EventTexts(event)[i] == BreakText(breaks[i])
  {
  }

  // ---------------------------------------------------------------------------
  // Options
  // ---------------------------------------------------------------------------

  /** The hidden text is None when there is no hidden_message_text child and is
      otherwise the first such child's text exactly, with no "" substituted. */
  lemma HiddenTextRules(option: Element, i: nat)
    ensures (forall j :: 0 <= j < |option.children| ==> option.children[j].tag != "hidden_message_text") ==>
              HiddenText(option) == None
    ensures i < |option.children| && option.children[i].tag == "hidden_message_text" &&
            (forall j :: 0 <= j < i ==> option.children[j].tag != "hidden_message_text") ==>
              HiddenText(option) == option.children[i].text
  {
    if i < |option.children| && option.children[i].tag == "hidden_message_text" &&
       (forall j :: 0 <= j < i ==> option.children[j].tag != "hidden_message_text") {
      FindFirstChild(option, "hidden_message_text", i);
    }
  }

  /** A failure of the fold is the failure of one of its elements. */
  lemma {:induction false} AllOkFaultComesFromElement<T>(results: seq<Result<T>>)
    ensures AllOk(results).Failure? ==> exists i :: 0 <= i < |results| && results[i] == Failure(AllOk(results).fault)
  {
    if results != [] {
      var n := |results| - 1;
      AllOkFaultComesFromElement(results[..n]);
      if AllOk(results[..n]).Failure? {
        var i :| 0 <= i < n && results[..n][i] == Failure(AllOk(results[..n]).fault);
        assert results[i] == results[..n][i];
      }
    }
  }

  /** Appending one more success extends the values. */
  lemma AllOkAppend<T>(results: seq<Result<T>>, values: seq<T>, v: T)
    requires AllOk(results) == Success(values)
    ensures AllOk(results + [Success(v)]) == Success(values + [v])
  {
    assert (results + [Success(v)])[..|results|] == results;
  }

  /** The first failure decides the fault: nothing after it is looked at and no
      partial result is returned. */
  lemma {:induction false} AllOkFirstFault<T>(results: seq<Result<T>>, i: nat)
    requires i < |results| && results[i].Failure?
    requires AllOk(results[..i]).Success?
    ensures AllOk(results) == Failure(results[i].fault)
  {
    var n := |results| - 1;
    if i < n {
      assert results[..n][..i] == results[..i];
      AllOkFirstFault(results[..n], i);
    } else {
      assert results[..n] == results[..i];
    }
  }

  /** A loop that computes `AllOk(results)` from left to right extends its values
      by one success at a time. */
  lemma AllOkExtend<T>(results: seq<Result<T>>, i: nat, values: seq<T>)
    requires i < |results| && results[i].Success?
    requires AllOk(results[..i]) == Success(values)
    ensures AllOk(results[..i + 1]) == Success(values + [results[i].value])
  {
    assert results[..i + 1] == results[..i] + [Success(results[i].value)];
    AllOkAppend(results[..i], values, results[i].value);
  }

  /** An event without event_options has no options; otherwise one option per
      event_option child, in document order. */
  lemma EventOptionsShape(event: Element, event': Event)
    requires EventOf(event) == Success(event')
    ensures Find(event, "event_options").None? ==> event'.options == []
    ensures Find(event, "event_options").Some? ==>
              var options := FindAll(Find(event, "event_options").value, "event_option");
              |event'.options| == |options| &&
              forall i :: 0 <= i < |options| ==> OptionOf(options[i]) == Success(event'.options[i])
  {
    if Find(event, "event_options").Some? {
      var options := FindAll(Find(event, "event_options").value, "event_option");
      assert forall i :: 0 <= i < |options| ==> OptionResults(options)[i] == OptionOf(options[i]);
    }
  }

  /** A sequence of event_option elements fails to parse exactly when one of them
      has no option_text child. */
  lemma OptionsFaults(options: seq<Element>)
    ensures AllOk(OptionResults(options)).Failure? <==>
              exists i :: 0 <= i < |options| && Find(options[i], "option_text").None?
    ensures AllOk(OptionResults(options)).Failure? ==>
              AllOk(OptionResults(options)).fault == MissingChild("option_text")
  {
    var results := OptionResults(options);
    assert forall i :: 0 <= i < |options| ==> results[i] == OptionOf(options[i]);
    AllOkFaultComesFromElement(results);
  }

  /** An event element fails to parse exactly when it has no event_name child or
      one of its event_option elements has no option_text child; a missing
      event_name is reported first. */
  lemma EventFaults(event: Element)
    ensures EventOf(event).Failure? <==>
              Find(event, "event_name").None? ||
              (Find(event, "event_options").Some? &&
               var options := FindAll(Find(event, "event_options").value, "event_option");
               exists i :: 0 <= i < |options| && Find(options[i], "option_text").None?)
    ensures EventOf(event).Failure? && Find(event, "event_name").Some? ==>
              EventOf(event).fault == MissingChild("option_text")
  {
    if Find(event, "event_options").Some? {
      OptionsFaults(FindAll(Find(event, "event_options").value, "event_option"));
    }
  }

  // ---------------------------------------------------------------------------
  // Destinations
  // ---------------------------------------------------------------------------

  /** Reference definition, first half: the destination elements that carry an id. */
  function WithId(destinations: seq<Element>): seq<Element>
  {
    if destinations == [] then []
    else (if HasId(destinations[0]) then [destinations[0]] else []) + WithId(destinations[1..])
  }

  /** Reference definition, second half: the text of each one's id, "" when absent. */
  function IdTexts(destinations: seq<Element>): seq<string>
  {
    seq(|destinations|, i requires 0 <= i < |destinations| =>
      match Find(destinations[i], "destination_id")
      case None => ""
      case Some(id) => OrEmpty(id.text))
  }

  lemma {:induction false} WithIdAppend(a: seq<Element>, b: seq<Element>)
    ensures WithId(a + b) == WithId(a) + WithId(b)
  {
    if a != [] {
      assert (a + b)[1..] == a[1..] + b;
      WithIdAppend(a[1..], b);
    } else {
      assert a + b == b;
    }
  }

  /** The filter keeps only destinations that have an id, taken from the input. */
  lemma {:induction false} WithIdHasId(destinations: seq<Element>)
    ensures forall d :: d in WithId(destinations) ==> HasId(d) && d in destinations
  {
    if destinations != [] {
      WithIdHasId(destinations[1..]);
    }
  }

  lemma IdTextsAppend(a: seq<Element>, b: seq<Element>)
    ensures IdTexts(a + b) == IdTexts(a) + IdTexts(b)
  {
  }

  /** Collecting destination ids is "keep the destinations with an id, then take
      each id's text": nothing is recorded for a destination without an id, and
      the order of the rest is kept. */
  lemma {:induction false} DestinationIdsIsFilterThenMap(destinations: seq<Element>)
    ensures DestinationIds(destinations) == IdTexts(WithId(destinations))
  {
    if destinations != [] {
      var n := |destinations| - 1;
      var init, last := destinations[..n], destinations[n];
      DestinationIdsIsFilterThenMap(init);
      assert destinations == init + [last];
      WithIdAppend(init, [last]);
      assert [last][1..] == [];
      IdTextsAppend(WithId(init), WithId([last]));
      assert IdTexts(WithId([last])) == DestinationEntry(last);
    }
  }

  /** Collecting ids one destination element at a time: the loop's step. */
  lemma DestinationIdsStep(destinations: seq<Element>, i: nat)
    requires i < |destinations|
    ensures DestinationIds(destinations[..i + 1]) == DestinationIds(destinations[..i]) + DestinationEntry(destinations[i])
  {
    assert destinations[..i + 1][..i] == destinations[..i];
  }

  /** One id per destination element exactly when every destination element has
      a destination_id; otherwise strictly fewer. */
  lemma {:induction false} DestinationCount(destinations: seq<Element>)
    ensures |DestinationIds(destinations)| <= |destinations|
    ensures |DestinationIds(destinations)| == |destinations| <==> forall d :: d in destinations ==> HasId(d)
  {
    if destinations != [] {
      var n := |destinations| - 1;
      DestinationCount(destinations[..n]);
      assert destinations == destinations[..n] + [destinations[n]];
    }
  }

  /** What a parsed option holds: the option_text child's text as it is (None
      included), the hidden text, and no destinations without a destinations
      child; otherwise the ids of the destinations that have one, in order, never
      more than there are destination elements. */
  lemma OptionShape(option: Element, option': EventOption)
    requires OptionOf(option) == Success(option')
    ensures Find(option, "option_text").Some? && option'.text == Find(option, "option_text").value.text
    ensures option'.hiddenText == HiddenText(option)
    ensures Find(option, "destinations").None? ==> option'.destinations == []
    ensures Find(option, "destinations").Some? ==>
              var destinations := FindAll(Find(option, "destinations").value, "destination");
              option'.destinations == IdTexts(WithId(destinations)) &&
              |option'.destinations| <= |destinations|
  {
    if Find(option, "destinations").Some? {
      var destinations := FindAll(Find(option, "destinations").value, "destination");
      DestinationIdsIsFilterThenMap(destinations);
      DestinationCount(destinations);
    }
  }

  // ---------------------------------------------------------------------------
  // The event table
  // ---------------------------------------------------------------------------

  /** `event` has an event_name child whose text is `name`. */
  predicate Named(event: Element, name: Option<string>)
  {
    Find(event, "event_name").Some? && Find(event, "event_name").value.text == name
  }

  /** The names carried by a sequence of event elements. */
  ghost function NamesOf(events: seq<Element>): set<Option<string>>
  {
    set i | 0 <= i < |events| && Find(events[i], "event_name").Some? :: Find(events[i], "event_name").value.text
  }

  /** Storing one more event: the fold's step. */
  lemma TableAppend(events: seq<Event>, event: Event)
    ensures Table(events + [event]) == Table(events)[event.name := event]
  {
    assert (events + [event])[..|events|] == events;
  }

  /** The table holds one entry per distinct name among the events. */
  lemma {:induction false} TableKeys(events: seq<Event>)
    ensures Table(events).Keys == set i | 0 <= i < |events| :: events[i].name
  {
    if events != [] {
      var n := |events| - 1;
      var init := events[..n];
      TableKeys(init);
      assert (set i | 0 <= i < |events| :: events[i].name) ==
             (set i | 0 <= i < n :: init[i].name) + {events[n].name} by {
        assert forall i :: 0 <= i < n ==> init[i] == events[i];
      }
    }
  }

  /** Last write wins: an event that no later event shares a name with is the
      entry stored under its name. */
  lemma {:induction false} TableLastWriteWins(events: seq<Event>, i: nat)
    requires i < |events|
    requires forall j :: i < j < |events| ==> events[j].name != events[i].name
    ensures events[i].name in Table(events) && Table(events)[events[i].name] == events[i]
  {
    var n := |events| - 1;
    if i < n {
      TableLastWriteWins(events[..n], i);
    }
  }

  /** The parse succeeds exactly when every event element parses, and otherwise
      fails with the fault of the first event element that does not. */
  lemma TableOfFaults(events: seq<Element>, i: nat)
    ensures TableOf(events).Success? <==> forall j :: 0 <= j < |events| ==> EventOf(events[j]).Success?
    ensures i < |events| && EventOf(events[i]).Failure? &&
            (forall j :: 0 <= j < i ==> EventOf(events[j]).Success?) ==>
              TableOf(events) == Failure(EventOf(events[i]).fault)
  {
    var results := EventResults(events);
    assert forall j :: 0 <= j < |events| ==> results[j] == EventOf(events[j]);
    if i < |events| && EventOf(events[i]).Failure? && (forall j :: 0 <= j < i ==> EventOf(events[j]).Success?) {
      assert forall j :: 0 <= j < i ==> results[..i][j] == results[j];
      AllOkFirstFault(results, i);
    }
  }

  /** The keys of the parsed table are exactly the names of the event elements, so
      there are as many entries as distinct names. */
  lemma TableOfKeys(events: seq<Element>, table: EventTable)
    requires TableOf(events) == Success(table)
    ensures table.Keys == NamesOf(events)
    ensures |table| == |NamesOf(events)|
  {
    var results := EventResults(events);
    var built := AllOk(results).value;
    assert forall j :: 0 <= j < |events| ==> results[j] == EventOf(events[j]) == Success(built[j]);
    TableKeys(built);
    BuiltNames(events, built);
  }

  /** The names of the events built from event elements are the names those
      elements carry. */
  lemma BuiltNames(events: seq<Element>, built: seq<Event>)
    requires |built| == |events|
    requires forall j :: 0 <= j < |events| ==> EventOf(events[j]) == Success(built[j])
    ensures NamesOf(events) == set i | 0 <= i < |built| :: built[i].name
  {
    forall j | 0 <= j < |events|
      ensures Find(events[j], "event_name").Some? && built[j].name == Find(events[j], "event_name").value.text
    {
    }
  }

  /** Last write wins on the parsed table: the entry for a name is the event built
      from the last event element carrying that name. */
  lemma TableOfLastWriteWins(events: seq<Element>, table: EventTable, i: nat, name: Option<string>)
    requires TableOf(events) == Success(table)
    requires i < |events| && Named(events[i], name)
    requires forall j :: i < j < |events| ==> !Named(events[j], name)
    ensures name in table && EventOf(events[i]) == Success(table[name])
  {
    var results := EventResults(events);
    var built := AllOk(results).value;
    assert forall j :: 0 <= j < |events| ==> results[j] == EventOf(events[j]) == Success(built[j]);
    TableLastWriteWins(built, i);
  }

  // ---------------------------------------------------------------------------
  // Worked documents
  // ---------------------------------------------------------------------------

  function Leaf(tag: string, text: string): Element
  {
    Element(tag, Some(text), [])
  }

  function Node(tag: string, children: seq<Element>): Element
  {
    Element(tag, None, children)
  }

  const IntroDestination: Element := Node("destination", [Leaf("destination_id", "scene2")])
  const IntroOption: Element :=
    Node("event_option", [Leaf("option_text", "Continue"), Node("destinations", [IntroDestination])])
  const IntroEvent: Element :=
    Node("event", [
      Leaf("event_name", "intro"),
      Node("event_body", [Node("text_break", [Leaf("text", "Welcome.")])]),
      Node("event_options", [IntroOption])])

  /** One event "intro" with one text break and one option leading to "scene2". */
  const IntroDocument: Element := Node("events", [IntroEvent])

  lemma IntroOptionParses()
    ensures OptionOf(IntroOption) == Success(EventOption(Some("Continue"), None, ["scene2"]))
  {
    assert DestinationIds([IntroDestination]) == ["scene2"];
    FindFirstChild(IntroOption, "destinations", 1);
    assert OptionDestinations(IntroOption) == ["scene2"];
    assert HiddenText(IntroOption) == None;
  }

  lemma IntroOptionsParse()
    ensures EventOptions(IntroEvent) == Success([EventOption(Some("Continue"), None, ["scene2"])])
  {
    var option := EventOption(Some("Continue"), None, ["scene2"]);
    IntroOptionParses();
    var options := Node("event_options", [IntroOption]);
    FindFirstChild(IntroEvent, "event_options", 2);
    assert FindAll(options, "event_option") == [IntroOption];
    assert OptionResults([IntroOption]) == [Success(option)];
    AllOkAppend([], [], option);
    assert [] + [Success(option)] == [Success(option)] && [] + [option] == [option];
  }

  lemma IntroTexts()
    ensures EventTexts(IntroEvent) == ["Welcome."]
  {
    var textBreak := Node("text_break", [Leaf("text", "Welcome.")]);
    FindFirstChild(IntroEvent, "event_body", 1);
    assert BreakText(textBreak) == "Welcome.";
  }

  lemma IntroEventParses()
    ensures EventOf(IntroEvent) ==
      Success(Event(Some("intro"), ["Welcome."], [EventOption(Some("Continue"), None, ["scene2"])]))
  {
    IntroOptionsParse();
    IntroTexts();
    assert Find(IntroEvent, "event_name") == Some(Leaf("event_name", "intro"));
  }

  /** Parsing one more event element stores it under its name, over any earlier
      entry with that name. */
  lemma TableOfAppend(events: seq<Element>, element: Element, table: EventTable, event: Event)
    requires TableOf(events) == Success(table) && EventOf(element) == Success(event)
    ensures TableOf(events + [element]) == Success(table[event.name := event])
  {
    var results := EventResults(events);
    assert EventResults(events + [element]) == results + [Success(event)];
    AllOkAppend(results, AllOk(results).value, event);
    TableAppend(AllOk(results).value, event);
  }

  /** A document with a single event element parses to a one-entry table. */
  lemma SingleEventTable(element: Element, event: Event)
    requires EventOf(element) == Success(event)
    ensures TableOf([element]) == Success(map[event.name := event])
  {
    assert EventResults([]) == [];
    TableOfAppend([], element, map[], event);
    assert [] + [element] == [element];
  }

  /** Two event elements with the same name: only the second one is kept. */
  lemma DuplicateNameTable(first: Element, second: Element, event1: Event, event2: Event)
    requires EventOf(first) == Success(event1) && EventOf(second) == Success(event2)
    requires event1.name == event2.name
    ensures TableOf([first, second]) == Success(map[event2.name := event2])
  {
    var name := event2.name;
    SingleEventTable(first, event1);
    TableOfAppend([first], second, map[name := event1], event2);
    assert [first] + [second] == [first, second];
    var table := map[name := event1][name := event2];
    assert table == map[name := event2];
  }

  lemma IntroScenario()
    ensures ParseTree(IntroDocument) ==
      Success(map[Some("intro") :=
        Event(Some("intro"), ["Welcome."], [EventOption(Some("Continue"), None, ["scene2"])])])
  {
    IntroEventParses();
    assert FindAll(IntroDocument, "event") == [IntroEvent];
    SingleEventTable(IntroEvent, Event(Some("intro"), ["Welcome."], [EventOption(Some("Continue"), None, ["scene2"])]));
  }
}
