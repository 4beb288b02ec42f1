/**
 The events of a streamed model response after JSON parsing, and the text they add up to. Texts are UTF-8 bytes, so
 their lengths are the byte lengths the program bounds.
 */
module SseEvents {
  import opened Wrappers
  import opened Bytes

  datatype DecodeError = Invalid | LimitExceeded | TimedOut | ModelFailed | EmptyText

  datatype Limits = Limits(eventBytes: nat, responseBytes: nat, textBytes: nat)

  const PRODUCTION := Limits(1024 * 1024, 4 * 1024 * 1024, 256 * 1024)

  // One element of an item's content; `text` is absent where it is missing or not a string.
  datatype Part = Part(outputText: bool, text: Option<Bytes>)

  // `message` and `assistant`: the item's type and role are these; `content` is absent where it is not an array.
  datatype Item = Item(message: bool, assistant: bool, content: Option<seq<Part>>)

  /** What the program sees in one event. `Malformed` is data that is not JSON or has no string `type`; a missing or
      ill-typed member is `None`. */
  datatype Event =
    | Malformed
    | Delta(delta: Option<Bytes>)
    | ItemDone(item: Option<Item>)
    | TextDone(text: Option<Bytes>)
    | Completed
    | Failed
    | Other

  // The JSON parser, applied to the data of one event.
  type Parser = Bytes -> Event

  datatype TextState = TextState(deltas: Bytes, item: Option<Bytes>, done: Option<Bytes>)

  const NO_TEXT := TextState([], None, None)

  function PartsText(parts: seq<Part>): Bytes {
    if parts == [] then []
    else
      var last := parts[|parts| - 1];
      PartsText(parts[..|parts| - 1]) + (if last.outputText && last.text.Some? then last.text.value else [])
  }

  /** The text an item stands for: none unless it is a non-empty assistant message. */
  function ItemText(item: Item): Bytes {
    if item.message && item.assistant && item.content.Some? then PartsText(item.content.value) else []
  }

  lemma {:induction false} PartsTextGrows(parts: seq<Part>, k: nat)
    requires k <= |parts|
    ensures |PartsText(parts[..k])| <= |PartsText(parts)|
    decreases |parts|
  {
    if k < |parts| {
      assert parts[..|parts| - 1][..k] == parts[..k];
      PartsTextGrows(parts[..|parts| - 1], k);
    } else {
      assert parts[..k] == parts;
    }
  }

  /** The texts of the parts that have one, in order. */
  function PartTexts(parts: seq<Part>): (texts: seq<Bytes>)
    ensures |texts| == |parts|
    ensures forall i | 0 <= i < |parts| ::
              texts[i] == match parts[i] case Part(true, Some(text)) => text case _ => []
  {
    seq(|parts|, i requires 0 <= i < |parts| => match parts[i] case Part(true, Some(text)) => text case _ => [])
  }

  /** The text of an item is that of its parts one after the other. Only an assistant's message with content has one. */
  lemma {:induction false} PartsTextIsConcat(parts: seq<Part>)
    ensures PartsText(parts) == Concat(PartTexts(parts))
    decreases |parts|
  {
    if parts != [] {
      var front, last := parts[..|parts| - 1], parts[|parts| - 1];
      PartsTextIsConcat(front);
      var text := PartTexts(parts)[|front|];
      assert PartTexts(parts) == PartTexts(front) + [text];
      ConcatAppend(PartTexts(front), [text]);
      ConcatOne(text);
    }
  }

  lemma ItemTextIs(item: Item)
    ensures item.message && item.assistant && item.content.Some? ==>
              ItemText(item) == Concat(PartTexts(item.content.value))
    ensures !item.message || !item.assistant || item.content.None? ==> ItemText(item) == []
  {
    if item.content.Some? {
      PartsTextIsConcat(item.content.value);
    }
  }

  datatype Reaction = Continue(text: TextState) | Answer(answer: Bytes) | Fail(error: DecodeError)

  /** What one event does to the collected text. */
  function React(event: Event, text: TextState, maximum: nat): Reaction {
    match event
    case Malformed => Fail(Invalid)
    case Delta(None) => Fail(Invalid)
    case Delta(Some(delta)) =>
      if |text.deltas| + |delta| > maximum then Fail(LimitExceeded)
      else Continue(text.(deltas := text.deltas + delta))
    case ItemDone(None) => Fail(Invalid)
    case ItemDone(Some(item)) =>
      if |ItemText(item)| > maximum then Fail(LimitExceeded)
      else if ItemText(item) == [] then Continue(text)
      else Continue(text.(item := Some(ItemText(item))))
    case TextDone(None) => Fail(Invalid)
    case TextDone(Some(done)) =>
      if |done| > maximum then Fail(LimitExceeded) else Continue(text.(done := Some(done)))
    case Completed =>
      if text.item.Some? then (if text.item.value == [] then Fail(EmptyText) else Answer(text.item.value))
      else if text.deltas != [] then Answer(text.deltas)
      else if text.done.Some? && text.done.value != [] then Answer(text.done.value)
      else Fail(EmptyText)
    case Failed => Fail(ModelFailed)
    case Other => Continue(text)
  }

  predicate TextWithin(text: TextState, maximum: nat) {
    && |text.deltas| <= maximum
    && (text.item.Some? ==> 0 < |text.item.value| <= maximum)
    && (text.done.Some? ==> |text.done.value| <= maximum)
  }
}
