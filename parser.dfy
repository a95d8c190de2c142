/**
  parse_event_file as the step-by-step procedure it is: loops over the children
  that append to lists and store into the result table one event at a time. Each
  method is proved to compute the pure definition of the same part of the parse,
  so every property proved about those definitions holds of the procedure too.
*/
module EventParser {
  import opened ElementTree
  import opened Events
  import opened EventProperties

  /** The texts of one event element: "" for a text_break without a text child,
      the text child's text or "" otherwise. */
  method CollectTexts(eventTag: Element) returns (texts: seq<string>)
    ensures texts == EventTexts(eventTag)
  {
    texts := [];
    var eventBody := Find(eventTag, "event_body");
    if eventBody.Some? {
      var textBreaks := FindAll(eventBody.value, "text_break");
      for i := 0 to |textBreaks|
        invariant |texts| == i
        invariant forall k :: 0 <= k < i ==> texts[k] == BreakText(textBreaks[k])
      {
        var textBreak := textBreaks[i];
        if Find(textBreak, "text").None? {
          texts := texts + [""];
          continue;
        }
        texts := texts + [OrEmpty(Find(textBreak, "text").value.text)];
      }
    }
  }

  /** The destinations of one event_option element: the id of each destination
      that has a destination_id child ("" when the id has no text); a destination
      without one is skipped. */
  method CollectDestinations(eventOption: Element) returns (destinations: seq<string>)
    ensures destinations == OptionDestinations(eventOption)
  {
    destinations := [];
    if Find(eventOption, "destinations").Some? {
      var destinationNodes := FindAll(Find(eventOption, "destinations").value, "destination");
      for i := 0 to |destinationNodes|
        invariant destinations == DestinationIds(destinationNodes[..i])
      {
        DestinationIdsStep(destinationNodes, i);
        if Find(destinationNodes[i], "destination_id").Some? {
          destinations := destinations + [OrEmpty(Find(destinationNodes[i], "destination_id").value.text)];
        }
      }
      assert destinationNodes[..|destinationNodes|] == destinationNodes;
    }
  }

  /** One event_option element: its option_text (required), its hidden text and
      the ids of those of its destinations that have one. */
  method ParseOption(eventOption: Element) returns (r: Result<EventOption>)
    ensures r == OptionOf(eventOption)
  {
    var optionTextTag := Find(eventOption, "option_text");
    if optionTextTag.None? {
      return Failure(MissingChild("option_text"));
    }
    var optionText := optionTextTag.value.text;
    var hiddenTextTag := Find(eventOption, "hidden_message_text");
    var hiddenText := if hiddenTextTag.Some? then hiddenTextTag.value.text else None;
    var destinations := CollectDestinations(eventOption);
    r := Success(EventOption(optionText, hiddenText, destinations));
  }

  /** The options of one event element, in document order; the first event_option
      without option_text stops the parse. */
  method CollectOptions(eventTag: Element) returns (r: Result<seq<EventOption>>)
    ensures r == EventOptions(eventTag)
  {
    var options := [];
    var eventOptions := Find(eventTag, "event_options");
    if eventOptions.Some? {
      var optionTags := FindAll(eventOptions.value, "event_option");
      ghost var results := OptionResults(optionTags);
      for i := 0 to |optionTags|
        invariant AllOk(results[..i]) == Success(options)
      {
        var option := ParseOption(optionTags[i]);
        assert results[i] == option;
        if option.Failure? {
          AllOkFirstFault(results, i);
          return Failure(option.fault);
        }
        AllOkExtend(results, i, options);
        options := options + [option.value];
      }
      assert results[..|optionTags|] == results;
    }
    r := Success(options);
  }

  /** One event element: its event_name (required), texts and options. */
  method ParseEvent(eventTag: Element) returns (r: Result<Event>)
    ensures r == EventOf(eventTag)
  {
    var eventNameTag := Find(eventTag, "event_name");
    if eventNameTag.None? {
      return Failure(MissingChild("event_name"));
    }
    var eventName := eventNameTag.value.text;
    var texts := CollectTexts(eventTag);
    var options := CollectOptions(eventTag);
    if options.Failure? {
      return Failure(options.fault);
    }
    r := Success(Event(eventName, texts, options.value));
  }

  /** parse_event_file from the root element on: every event element in document
      order is parsed and stored under its name, overwriting an earlier entry of
      the same name; the first fault stops the parse with no table. */
  method ParseEventFile(eventsRoot: Element) returns (r: Result<EventTable>)
    ensures r == ParseTree(eventsRoot)
  {
    var eventsAll: EventTable := map[];
    var eventTags := FindAll(eventsRoot, "event");
    ghost var results := EventResults(eventTags);
    ghost var built: seq<Event> := [];
    for i := 0 to |eventTags|
      invariant AllOk(results[..i]) == Success(built)
      invariant eventsAll == Table(built)
    {
      var event := ParseEvent(eventTags[i]);
      assert results[i] == event;
      if event.Failure? {
        AllOkFirstFault(results, i);
        return Failure(event.fault);
      }
      AllOkExtend(results, i, built);
      eventsAll := eventsAll[event.value.name := event.value];
      TableAppend(built, event.value);
      built := built + [event.value];
    }
    assert results[..|eventTags|] == results;
    r := Success(eventsAll);
  }
}
