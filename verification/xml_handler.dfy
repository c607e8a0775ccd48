/** `XmlHandler::load_file` as a stack machine folded over the reader's events,
    the same loop written imperatively, and `modify_value`. */
module XmlHandler {
  import opened Text
  import opened XmlEvents

  /** One editable leaf: the `/`-joined ancestor tags, the leaf's own tag and
      its unescaped text. */
  datatype XmlValue = XmlValue(path: string, name: string, value: string)

  /** The loop's two locals: `current_path` and `values`. */
  datatype State = State(stack: seq<string>, values: seq<XmlValue>)

  /** Either still looping, or the call has returned. */
  datatype Progress = Running(state: State) | Finished(outcome: Result<seq<XmlValue>>)

  const PathSeparator: char := '/'

  /** Both locals start empty. */
  const Initial: Progress := Running(State([], []))

  /** The value a text node produces under a non-empty stack: the top is its
      name, everything below the top is its path. */
  function Leaf(stack: seq<string>, text: string): XmlValue
    requires |stack| > 0
  {
    XmlValue(Join(stack[..|stack| - 1], PathSeparator), stack[|stack| - 1], text)
  }

  /** One iteration of the loop. Once the call has returned, nothing changes.
      A step that keeps running only ever appends to `values`, at most one
      entry and only on a text event, and moves the stack as `Effect` says. */
  function Step(p: Progress, e: Event, dec: Decoder): (q: Progress)
    ensures p.Finished? ==> q == p
    ensures p.Running? && q.Running? ==>
              && p.state.values <= q.state.values
              && |q.state.values| <= |p.state.values| + (if e.Text? then 1 else 0)
              && q.state.stack == Effect(p.state.stack, e, dec)
    ensures p.Running? && q.Finished? ==> (q.outcome.Ok? <==> e.Eof?)
    ensures p.Running? && q.Finished? && e.Eof? ==> q.outcome.value == p.state.values
  {
    match p
    case Finished(_) => p
    case Running(st) =>
      match e
      case Eof => Finished(Ok(st.values))
      case Start(raw) =>
        (match dec.tagName(raw)
         case None => Finished(Err(NonUtf8Name(raw)))
         case Some(name) => Running(st.(stack := st.stack + [name])))
      case Text(raw) =>
        if |st.stack| == 0 then p
        else
          (match dec.unescape(raw)
           case None => Finished(Err(BadEscape(raw)))
           case Some(text) =>
             if Trim(text) == [] then p
             else Running(st.(values := st.values + [Leaf(st.stack, text)])))
      case End => Running(st.(stack := Pop(st.stack)))
      case Malformed(detail) => Finished(Err(ReaderError(detail)))
      case Other => p
  }

  /** The loop run over a sequence of events. */
  function Walk(p: Progress, events: seq<Event>, dec: Decoder): Progress
  {
    if |events| == 0 then p
    else Step(Walk(p, events[..|events| - 1], dec), events[|events| - 1], dec)
  }

  /** `load_file` on a reader that yields `events` and then keeps reporting
      Eof, as quick_xml does at the end of its input. */
  function Extract(events: seq<Event>, dec: Decoder): Result<seq<XmlValue>>
  {
    match Walk(Initial, events, dec)
    case Running(st) => Ok(st.values)
    case Finished(r) => r
  }

  lemma {:induction false} WalkAppend(p: Progress, a: seq<Event>, b: seq<Event>, dec: Decoder)
    ensures Walk(p, a + b, dec) == Walk(Walk(p, a, dec), b, dec)
  {
    if |b| > 0 {
      assert (a + b)[..|a + b| - 1] == a + b[..|b| - 1];
      WalkAppend(p, a, b[..|b| - 1], dec);
    } else {
      assert a + b == a;
    }
  }

  /** Once the call has returned, later events are never consulted. */
  lemma {:induction false} FinishedIsFinal(p: Progress, events: seq<Event>, dec: Decoder)
    requires p.Finished?
    ensures Walk(p, events, dec) == p
  {
    if |events| > 0 {
      FinishedIsFinal(p, events[..|events| - 1], dec);
    }
  }

  /** A returned prefix decides the whole call. */
  lemma FinishedPrefixDecides(events: seq<Event>, n: nat, dec: Decoder)
    requires n <= |events|
    requires Walk(Initial, events[..n], dec).Finished?
    ensures Extract(events, dec) == Walk(Initial, events[..n], dec).outcome
  {
    assert events == events[..n] + events[n..];
    WalkAppend(Initial, events[..n], events[n..], dec);
    FinishedIsFinal(Walk(Initial, events[..n], dec), events[n..], dec);
  }

  /** While the loop runs, its stack is the stack the events spell out. */
  lemma {:induction false} WalkTracksStack(events: seq<Event>, dec: Decoder)
    requires Walk(Initial, events, dec).Running?
    ensures Walk(Initial, events, dec).state.stack == StackAfter([], events, dec)
  {
    if |events| > 0 {
      var init := events[..|events| - 1];
      if Walk(Initial, init, dec).Finished? {
        assert false;
      }
      WalkTracksStack(init, dec);
    }
  }

  /** An event that leaves a running loop as it is can be deleted from any
      position without changing the outcome. */
  lemma InertEventCanBeDropped(pre: seq<Event>, e: Event, post: seq<Event>, dec: Decoder)
    requires Step(Walk(Initial, pre, dec), e, dec) == Walk(Initial, pre, dec)
    ensures Extract(pre + [e] + post, dec) == Extract(pre + post, dec)
  {
    WalkAppend(Initial, pre + [e], post, dec);
    assert (pre + [e])[..|pre + [e]| - 1] == pre;
    WalkAppend(Initial, pre, post, dec);
  }

  /** Ignored events (self-closing elements, comments, CDATA, declarations…)
      change neither the stack nor the output. */
  lemma OtherEventsAreInert(pre: seq<Event>, post: seq<Event>, dec: Decoder)
    ensures Extract(pre + [Other] + post, dec) == Extract(pre + post, dec)
  {
    InertEventCanBeDropped(pre, Other, post, dec);
  }

  /** Text met while no tag is open (before the root or after it closes) is
      not even unescaped: it can neither produce a value nor fail the call. */
  lemma TextOutsideRootIsInert(pre: seq<Event>, raw: Bytes, post: seq<Event>, dec: Decoder)
    requires StackAfter([], pre, dec) == []
    ensures Extract(pre + [Text(raw)] + post, dec) == Extract(pre + post, dec)
  {
    if Walk(Initial, pre, dec).Running? {
      WalkTracksStack(pre, dec);
    }
    InertEventCanBeDropped(pre, Text(raw), post, dec);
  }

  /** Text that unescapes to whitespace only never produces a value, whatever
      tags are open. */
  lemma BlankTextIsInert(pre: seq<Event>, raw: Bytes, post: seq<Event>, dec: Decoder)
    requires dec.unescape(raw).Some? && IsBlank(dec.unescape(raw).value)
    ensures Extract(pre + [Text(raw)] + post, dec) == Extract(pre + post, dec)
  {
    InertEventCanBeDropped(pre, Text(raw), post, dec);
  }

  /** The first Eof ends the call: whatever follows is never read. */
  lemma EventsAfterEofAreIgnored(pre: seq<Event>, post: seq<Event>, dec: Decoder)
    ensures Extract(pre + [Eof] + post, dec) == Extract(pre, dec)
  {
    var p := Walk(Initial, pre, dec);
    assert (pre + [Eof])[..|pre + [Eof]| - 1] == pre;
    WalkAppend(Initial, pre + [Eof], post, dec);
    FinishedIsFinal(Step(p, Eof, dec), post, dec);
  }

  /** A balanced `Start … End` run that the loop gets through leaves its open-tag
      stack as it was before the run. */
  lemma BalancedRunRestoresOpenTags(pre: seq<Event>, run: seq<Event>, dec: Decoder)
    requires NamesDecode(run, dec) && Balanced(run)
    requires Walk(Initial, pre + run, dec).Running?
    ensures Walk(Initial, pre, dec).Running?
    ensures Walk(Initial, pre + run, dec).state.stack == Walk(Initial, pre, dec).state.stack
  {
    WalkAppend(Initial, pre, run, dec);
    if Walk(Initial, pre, dec).Finished? {
      FinishedIsFinal(Walk(Initial, pre, dec), run, dec);
    }
    WalkTracksStack(pre + run, dec);
    WalkTracksStack(pre, dec);
    StackAfterAppend([], pre, run, dec);
    BalancedRestoresStack(StackAfter([], pre, dec), run, dec);
  }

  /** Walking one more event is one more step. */
  lemma WalkOneMore(events: seq<Event>, i: nat, dec: Decoder)
    requires i < |events|
    ensures Walk(Initial, events[..i + 1], dec) == Step(Walk(Initial, events[..i], dec), events[i], dec)
  {
    assert events[..i + 1][..i] == events[..i];
  }

  /** No value in the list has blank text. */
  predicate NoneBlank(values: seq<XmlValue>) {
    forall k :: 0 <= k < |values| ==> !IsBlank(values[k].value)
  }

  /** The body of the loop of `load_file` for one event: it either returns
      (`Finished`) or carries on with the updated locals, exactly as `Step`
      says; a value it adds is never blank. */
  method Iterate(stack: seq<string>, values: seq<XmlValue>, e: Event, dec: Decoder) returns (p: Progress)
    ensures p == Step(Running(State(stack, values)), e, dec)
    ensures p.Running? && NoneBlank(values) ==> NoneBlank(p.state.values)
  {
    match e {
      case Eof =>
        return Finished(Ok(values));
      case Start(raw) =>
        match dec.tagName(raw) {
          case None =>
            return Finished(Err(NonUtf8Name(raw)));
          case Some(name) =>
            return Running(State(stack + [name], values));
        }
      case Text(raw) =>
        if |stack| > 0 {
          match dec.unescape(raw) {
            case None =>
              return Finished(Err(BadEscape(raw)));
            case Some(text) =>
              if Trim(text) != [] {
                var leaf := XmlValue(Join(stack[..|stack| - 1], PathSeparator), stack[|stack| - 1], text);
                return Running(State(stack, values + [leaf]));
              }
          }
        }
      case End =>
        if |stack| > 0 {
          return Running(State(stack[..|stack| - 1], values));
        }
      case Malformed(detail) =>
        return Finished(Err(ReaderError(detail)));
      case Other =>
    }
    p := Running(State(stack, values));
  }

  /** The loop of `load_file`, one event per iteration, leaving at the first
      Eof or error. */
  method LoadFile(events: seq<Event>, dec: Decoder) returns (r: Result<seq<XmlValue>>)
    ensures r == Extract(events, dec)
    ensures r.Ok? ==> forall k :: 0 <= k < |r.value| ==> !IsBlank(r.value[k].value)
  {
    var stack: seq<string> := [];
    var values: seq<XmlValue> := [];
    var i := 0;
    while i < |events|
      invariant 0 <= i <= |events|
      invariant Walk(Initial, events[..i], dec) == Running(State(stack, values))
      invariant NoneBlank(values)
    {
      var p := Iterate(stack, values, events[i], dec);
      WalkOneMore(events, i, dec);
      assert Walk(Initial, events[..i + 1], dec) == p;
      match p {
        case Finished(outcome) =>
          FinishedPrefixDecides(events, i + 1, dec);
          return outcome;
        case Running(st) =>
          stack, values := st.stack, st.values;
      }
      i := i + 1;
    }
    assert events[..i] == events;
    r := Ok(values);
  }

  /** `modify_value`: accepts any edit, reports success and changes nothing
      (the handler holds no state to change). */
  function ModifyValue(path: string, name: string, newValue: string): (r: Result<()>)
    ensures r.Ok?
  {
    Ok(())
  }
}
