/** The reader side of `XmlHandler::load_file`: the events quick_xml hands to the
    extraction loop, the two decoding steps the loop performs on them, and the
    open-tag stack discipline (push on Start, pop on End). */
module XmlEvents {

  newtype byte = b: int | 0 <= b < 256
  type Bytes = seq<byte>

  datatype Option<+T> = None | Some(value: T)

  /** Why a load fails: a reader error, a tag name that is not UTF-8, or text
      whose entity references do not unescape. */
  datatype XmlError =
    | ReaderError(detail: string)
    | NonUtf8Name(rawName: Bytes)
    | BadEscape(rawText: Bytes)

  datatype Result<+T> = Ok(value: T) | Err(error: XmlError)

  /** One answer of `read_event_into`, as far as the loop tells them apart.
      `Other` stands for every event the loop ignores: empty (self-closing)
      elements, comments, CDATA, declarations, processing instructions and
      doctypes. `Malformed` is the reader's `Err`. */
  datatype Event =
    | Start(rawName: Bytes)
    | Text(rawText: Bytes)
    | End
    | Other
    | Eof
    | Malformed(detail: string)

  /** The two partial decodings the loop applies: `std::str::from_utf8` on a
      start tag's name and `BytesText::unescape` on a text node. */
  datatype Decoder = Decoder(tagName: Bytes -> Option<string>, unescape: Bytes -> Option<string>)

  /** `Vec::pop` with its result discarded: the top goes, and an empty stack
      stays empty. */
  function Pop(stack: seq<string>): (r: seq<string>)
    ensures r <= stack
    ensures |r| == if |stack| == 0 then 0 else |stack| - 1
  {
    if |stack| == 0 then stack else stack[..|stack| - 1]
  }

  /** What one event does to the open-tag stack, once its tag name decodes:
      Start pushes exactly one name, End pops at most one, the rest leave it. */
  function Effect(stack: seq<string>, e: Event, dec: Decoder): (r: seq<string>)
    ensures e.Start? && dec.tagName(e.rawName).Some? ==> r == stack + [dec.tagName(e.rawName).value]
    ensures e.End? ==> r == Pop(stack)
    ensures !e.Start? && !e.End? ==> r == stack
  {
    match e
    case Start(raw) =>
      (match dec.tagName(raw)
       case Some(name) => stack + [name]
       case None => stack)
    case End => Pop(stack)
    case _ => stack
  }

  /** The stack after a run of events, starting from `stack`. */
  function StackAfter(stack: seq<string>, events: seq<Event>, dec: Decoder): seq<string>
  {
    if |events| == 0 then stack
    else Effect(StackAfter(stack, events[..|events| - 1], dec), events[|events| - 1], dec)
  }

  lemma {:induction false} StackAfterAppend(stack: seq<string>, a: seq<Event>, b: seq<Event>, dec: Decoder)
    ensures StackAfter(stack, a + b, dec) == StackAfter(StackAfter(stack, a, dec), b, dec)
  {
    if |b| > 0 {
      assert (a + b)[..|a + b| - 1] == a + b[..|b| - 1];
      StackAfterAppend(stack, a, b[..|b| - 1], dec);
    } else {
      assert a + b == a;
    }
  }

  /** How far an event moves the depth: Start down one level, End up one. */
  function Delta(e: Event): int {
    match e
    case Start(_) => 1
    case End => -1
    case _ => 0
  }

  /** Net depth change of a run of events. */
  function Depth(events: seq<Event>): int {
    if |events| == 0 then 0 else Depth(events[..|events| - 1]) + Delta(events[|events| - 1])
  }

  /** Every Start in the run has a decodable tag name. */
  predicate NamesDecode(events: seq<Event>, dec: Decoder) {
    forall j :: 0 <= j < |events| && events[j].Start? ==> dec.tagName(events[j].rawName).Some?
  }

  /** A well-nested `Start … End` run: it never closes more than it opened, and
      closes everything it opens. */
  predicate Balanced(events: seq<Event>) {
    && Depth(events) == 0
    && forall j :: 0 <= j <= |events| ==> Depth(events[..j]) >= 0
  }

  /** A run that never closes more than it opened keeps the stack it started
      from as a prefix, and grows it by exactly its net depth. */
  lemma {:induction false} StackAfterKeepsBase(base: seq<string>, events: seq<Event>, dec: Decoder)
    requires NamesDecode(events, dec)
    requires forall j :: 0 <= j <= |events| ==> Depth(events[..j]) >= 0
    ensures |StackAfter(base, events, dec)| == |base| + Depth(events)
    ensures base <= StackAfter(base, events, dec)
  {
    if |events| > 0 {
      var init := events[..|events| - 1];
      forall j | 0 <= j <= |init|
        ensures Depth(init[..j]) >= 0
      {
        assert init[..j] == events[..j];
      }
      StackAfterKeepsBase(base, init, dec);
      assert events[..|events|] == events;
    }
  }

  /** A balanced `Start … End` run leaves the stack exactly as it found it. */
  lemma BalancedRestoresStack(stack: seq<string>, events: seq<Event>, dec: Decoder)
    requires NamesDecode(events, dec)
    requires Balanced(events)
    ensures StackAfter(stack, events, dec) == stack
  {
    StackAfterKeepsBase(stack, events, dec);
  }

  /** Cutting a balanced run out of any event sequence does not change the
      stack at the end. */
  lemma BalancedRunIsTransparent(pre: seq<Event>, run: seq<Event>, post: seq<Event>, dec: Decoder)
    requires NamesDecode(run, dec)
    requires Balanced(run)
    ensures StackAfter([], pre + run + post, dec) == StackAfter([], pre + post, dec)
  {
    var s := StackAfter([], pre, dec);
    StackAfterAppend([], pre + run, post, dec);
    StackAfterAppend([], pre, run, dec);
    BalancedRestoresStack(s, run, dec);
    StackAfterAppend([], pre, post, dec);
  }
}
