# Event files of Golden Treasure: the Great Green

`green_tailbeast.py` reads an event XML file and returns a dictionary from event name to `Event`.
Each `Event` carries its text breaks and its `EventOption`s. An option has its displayed text, an
optional hidden text and the ids of the destinations it leads to.

This project models that parse on an already parsed element tree, in three layers:

- `ElementTree` (`element_tree.dfy`) — elements with a tag, an optional text and children in
  document order. `Find` and `FindAll` are ElementTree's `find(tag)` and `findall(tag)` with a
  bare tag name.
- `Events` (`events.dfy`) — the two records, and the parse written as pure functions:
  - `OptionOf` and `EventOf` build one record each;
  - `AllOk` is the first-fault fold over a sequence of results;
  - `Table` is the last-write-wins fold that fills the dictionary;
  - `ParseTree` is the whole parse.
- `EventProperties` (`event_properties.dfy`) — what the parse promises:
  - the default for every optional node;
  - the order and count of texts, options and destinations;
  - when the parse fails, and with which fault;
  - the keys of the result and the rule that a later event overwrites an earlier one of the
    same name;
  - a worked one-event document and a two-events-one-name document.
- `EventParser` (`parser.dfy`) — `parse_event_file` as the loops it is, one method per loop.
  Each method is proved to compute the matching pure function, so every lemma about the
  functions holds of the procedure.

A required node that is missing is modelled as a value rather than a crash. A missing
`event_name` or `option_text` child makes Python raise an `AttributeError` on `None.text`; the
model returns `Failure(MissingChild(tag))` for the first such node in document order, and
returns no partial table.

The `text` of an `event_name` or `option_text` element is `None` when the element is empty,
even though the records annotate it as `str`. So `Event.name`, `EventOption.text` and the table
keys are `Option<string>`.

## Model

| member | source | states |
|---|---|---|
| ElementTree.First | green_tailbeast.py:64 | `find` gives nothing exactly when no child carries the tag; otherwise it gives a child with that tag |
| ElementTree.Matching | green_tailbeast.py:63 | `findall` gives at most as many elements as there are children, and each one carries the tag |
| ElementTree.FirstIsMember | green_tailbeast.py:64 | what `find` gives is one of the element's children |
| ElementTree.MatchingSound | green_tailbeast.py:63 | `findall` selects only children of the element |
| ElementTree.MatchingComplete | green_tailbeast.py:63 | every child that carries the tag is among those `findall` gives |
| ElementTree.MatchingAppend | green_tailbeast.py:63 | `findall` keeps document order: selecting from a concatenation is the concatenation of the selections |
| ElementTree.FirstIsFirstMatch | green_tailbeast.py:64 | `find` gives the child at the first index that carries the tag |
| ElementTree.FindFirstChild | green_tailbeast.py:66 | the same, stated for `find` on an element |
| ElementTree.FindIsHeadOfFindAll | green_tailbeast.py:85-87 | `find(tag)` is the head of `findall(tag)`, and nothing when that is empty |
| Events.OptionOf | green_tailbeast.py:79-96 | an option fails exactly when it has no option_text child, with fault MissingChild("option_text"); otherwise its text is that child's text, None included |
| Events.EventOf | green_tailbeast.py:64-99 | a built event's name is its event_name child's text; a missing event_name fails first, with MissingChild("event_name") |
| Events.AllOk | green_tailbeast.py:78-96 | the fold succeeds exactly when every element does; its values are the elements' values, one each, in order |
| Events.Table | green_tailbeast.py:98-99 | every entry of the table is stored under its own event's name |
| EventProperties.BreakTextRules | green_tailbeast.py:69-73 | a text_break without a text child gives ""; otherwise the first text child's text, or "" when it has none |
| EventProperties.EventTextsShape | green_tailbeast.py:66-73 | no event_body gives no texts; otherwise one text per text_break, in document order |
| EventProperties.HiddenTextRules | green_tailbeast.py:80-83 | no hidden_message_text child gives None; otherwise exactly the first such child's text, with no "" substituted |
| EventProperties.AllOkFaultComesFromElement | green_tailbeast.py:62-101 | a failure of the fold is the failure of one of its elements |
| EventProperties.AllOkFirstFault | green_tailbeast.py:62-101 | the first failing element decides the fault, and nothing after it is looked at |
| EventProperties.EventOptionsShape | green_tailbeast.py:75-96 | no event_options gives no options; otherwise one option per event_option, in document order, each the record built from it |
| EventProperties.OptionsFaults | green_tailbeast.py:78-79 | the options of an event fail exactly when one event_option lacks option_text, and the fault names option_text |
| EventProperties.EventFaults | green_tailbeast.py:63-99 | an event fails exactly when event_name is missing or an event_option lacks option_text; with event_name present the fault names option_text |
| EventProperties.WithIdHasId | green_tailbeast.py:88-89 | the destinations kept are ones that have a destination_id, taken from the input |
| EventProperties.DestinationIdsIsFilterThenMap | green_tailbeast.py:84-92 | destinations are "keep the destination elements with an id, then take each id's text or ''", in order |
| EventProperties.DestinationCount | green_tailbeast.py:84-92 | never more ids than destination elements; exactly as many exactly when every one has a destination_id |
| EventProperties.OptionShape | green_tailbeast.py:79-96 | a built option holds option_text's text, the hidden text, no destinations without a destinations child, and otherwise the filtered ids, at most one per destination |
| EventProperties.TableKeys | green_tailbeast.py:98-99 | the keys of the table are exactly the names of the stored events |
| EventProperties.TableLastWriteWins | green_tailbeast.py:98-99 | an event that no later event shares its name with is the entry under that name |
| EventProperties.TableOfFaults | green_tailbeast.py:62-101 | the parse succeeds exactly when every event element parses, and otherwise fails with the first failing element's fault |
| EventProperties.TableOfKeys | green_tailbeast.py:62-101 | the keys of the result are exactly the names of the event elements, so it has one entry per distinct name |
| EventProperties.TableOfLastWriteWins | green_tailbeast.py:98-99 | the entry for a name is the event built from the last event element with that name |
| EventProperties.TableOfAppend | green_tailbeast.py:98-99 | parsing one more event element stores it under its name over any earlier entry |
| EventProperties.SingleEventTable | green_tailbeast.py:62-101 | a document with one event element gives a one-entry table |
| EventProperties.DuplicateNameTable | green_tailbeast.py:98-99 | of two event elements with one name, only the second is kept |
| EventProperties.IntroScenario | green_tailbeast.py:49-101 | the document with event "intro" (one text "Welcome.", one option "Continue" leading to "scene2") parses to that single event |
| EventParser.CollectTexts | green_tailbeast.py:66-73 | the texts loop computes `EventTexts` |
| EventParser.CollectDestinations | green_tailbeast.py:84-92 | the destinations loop computes `OptionDestinations` |
| EventParser.ParseOption | green_tailbeast.py:79-96 | one loop step over event_option computes `OptionOf` |
| EventParser.CollectOptions | green_tailbeast.py:75-96 | the options loop computes `EventOptions`, stopping at the first option without option_text |
| EventParser.ParseEvent | green_tailbeast.py:64-99 | one loop step over event computes `EventOf` |
| EventParser.ParseEventFile | green_tailbeast.py:59-101 | the whole procedure, from the root element on, computes `ParseTree`: the first fault or the last-write-wins table |

## Left out

- Reading and parsing the file (`ET.parse(path)`, `getroot()`, lines 59-60) is not modelled: it is
  I/O plus XML tokenisation. `ParseEventFile` starts from the root element, and a malformed
  file's `ParseError` is not represented.
- The exception is represented as a value. `Fault` records only which required child was
  missing, not the Python exception type or its traceback.
- The dictionary's key order (insertion order of the first occurrence of each name) is not
  modelled. The result is a Dafny `map`, which has no order.
- Element attributes, tails and namespaces are not modelled: the parser never reads them.
  `find`/`findall` are modelled only for bare tag names, which is all the parser uses; their
  path-expression syntax is left out.
- The TODO items in the record docstrings (prerequisites, variable changes, substitution in
  destinations) are not implemented in the source and so are not modelled.
- Whitespace handling of element text belongs to the XML parser. An empty element has text
  `None` (so an empty `hidden_message_text` yields `None`, not `""`), and any other text is kept
  verbatim.
