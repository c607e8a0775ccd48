/** A declarative description of what `load_file` returns, written event by
    event rather than as a loop, and the theorem that the loop meets it. */
module Extraction {
  import opened Text
  import opened XmlEvents
  import opened XmlHandler

  /** Where the reader reports its first Eof (the length, if it never does in
      the listed events). */
  function EofIndex(events: seq<Event>): (k: nat)
    ensures k <= |events|
    ensures k < |events| ==> events[k].Eof?
    ensures forall j :: 0 <= j < k ==> !events[j].Eof?
  {
    if |events| == 0 then 0
    else if events[0].Eof? then 0
    else 1 + EofIndex(events[1..])
  }

  /** The open tags just before event `i`. */
  function StackAt(events: seq<Event>, i: nat, dec: Decoder): seq<string>
    requires i <= |events|
  {
    StackAfter([], events[..i], dec)
  }

  /** Event `i` aborts the call when reached: a reader error, a start tag whose
      name is not UTF-8, or, inside some element, text that does not unescape. */
  predicate FailsAt(events: seq<Event>, i: nat, dec: Decoder)
    requires i < |events|
  {
    match events[i]
    case Malformed(_) => true
    case Start(raw) => dec.tagName(raw).None?
    case Text(raw) => |StackAt(events, i, dec)| > 0 && dec.unescape(raw).None?
    case _ => false
  }

  /** The error event `i` aborts with. */
  function ErrorAt(events: seq<Event>, i: nat, dec: Decoder): XmlError
    requires i < |events| && FailsAt(events, i, dec)
  {
    match events[i]
    case Malformed(detail) => ReaderError(detail)
    case Start(raw) => NonUtf8Name(raw)
    case Text(raw) => BadEscape(raw)
  }

  /** The first aborting event among the first `n`, if any. */
  function FirstFailure(events: seq<Event>, n: nat, dec: Decoder): (r: Option<nat>)
    requires n <= |events|
    ensures r.Some? ==> r.value < n && FailsAt(events, r.value, dec)
    ensures r.Some? ==> forall j :: 0 <= j < r.value ==> !FailsAt(events, j, dec)
    ensures r.None? ==> forall j :: 0 <= j < n ==> !FailsAt(events, j, dec)
  {
    if n == 0 then None
    else match FirstFailure(events, n - 1, dec)
      case Some(i) => Some(i)
      case None => if FailsAt(events, n - 1, dec) then Some(n - 1) else None
  }

  /** Event `i` yields a value: it is text, some element is open, and the text
      unescapes to something that is not blank. */
  predicate Emits(events: seq<Event>, i: nat, dec: Decoder)
    requires i < |events|
  {
    && events[i].Text?
    && |StackAt(events, i, dec)| > 0
    && dec.unescape(events[i].rawText).Some?
    && !IsBlank(dec.unescape(events[i].rawText).value)
  }

  /** The value event `i` yields: named after the innermost open tag, placed
      under the `/`-join of the tags around it, carrying the unescaped text
      untrimmed. */
  function LeafAt(events: seq<Event>, i: nat, dec: Decoder): XmlValue
    requires i < |events| && Emits(events, i, dec)
  {
    var stack := StackAt(events, i, dec);
    XmlValue(Join(stack[..|stack| - 1], PathSeparator), stack[|stack| - 1],
             dec.unescape(events[i].rawText).value)
  }

  /** The values yielded by the first `n` events, in event order. */
  function Leaves(events: seq<Event>, n: nat, dec: Decoder): seq<XmlValue>
    requires n <= |events|
  {
    if n == 0 then []
    else Leaves(events, n - 1, dec) + (if Emits(events, n - 1, dec) then [LeafAt(events, n - 1, dec)] else [])
  }

  /** What `load_file` returns: the error of the first aborting event before
      the first Eof, or else every value yielded before that Eof. */
  function Reference(events: seq<Event>, dec: Decoder): Result<seq<XmlValue>>
  {
    var k := EofIndex(events);
    match FirstFailure(events, k, dec)
    case Some(i) => Err(ErrorAt(events, i, dec))
    case None => Ok(Leaves(events, k, dec))
  }

  /** Where the loop should stand after the first `n` events. */
  function Expected(events: seq<Event>, n: nat, dec: Decoder): Progress
    requires n <= |events|
  {
    var k := EofIndex(events);
    var seen := if n <= k then n else k;
    match FirstFailure(events, seen, dec)
    case Some(i) => Finished(Err(ErrorAt(events, i, dec)))
    case None =>
      if n > k then Finished(Ok(Leaves(events, k, dec)))
      else Running(State(StackAt(events, n, dec), Leaves(events, n, dec)))
  }

  lemma StackAtNext(events: seq<Event>, n: nat, dec: Decoder)
    requires n < |events|
    ensures StackAt(events, n + 1, dec) == Effect(StackAt(events, n, dec), events[n], dec)
  {
    assert events[..n + 1][..n] == events[..n];
  }

  /** At or past the first Eof, one more step leaves the loop where the
      description says. */
  lemma ExpectedNextPastEof(events: seq<Event>, m: nat, dec: Decoder)
    requires m < |events| && EofIndex(events) <= m
    ensures Step(Expected(events, m, dec), events[m], dec) == Expected(events, m + 1, dec)
  {
    var k := EofIndex(events);
    match FirstFailure(events, k, dec)
    case Some(i) =>
      assert Expected(events, m, dec) == Finished(Err(ErrorAt(events, i, dec)));
      assert Expected(events, m + 1, dec) == Finished(Err(ErrorAt(events, i, dec)));
    case None =>
      var done := Finished(Ok(Leaves(events, k, dec)));
      assert Expected(events, m + 1, dec) == done;
      if m == k {
        assert events[m].Eof?;
        assert Expected(events, m, dec) == Running(State(StackAt(events, m, dec), Leaves(events, k, dec)));
      } else {
        assert Expected(events, m, dec) == done;
      }
  }

  /** Before the first Eof and with no earlier failure, an aborting event
      finishes the loop with that event's error. */
  lemma ExpectedNextFails(events: seq<Event>, m: nat, dec: Decoder)
    requires m < EofIndex(events) && FirstFailure(events, m, dec).None? && FailsAt(events, m, dec)
    ensures Step(Expected(events, m, dec), events[m], dec) == Expected(events, m + 1, dec)
  {
    assert FirstFailure(events, m + 1, dec) == Some(m);
    assert Expected(events, m, dec) == Running(State(StackAt(events, m, dec), Leaves(events, m, dec)));
    assert Expected(events, m + 1, dec) == Finished(Err(ErrorAt(events, m, dec)));
  }

  /** What a non-aborting event does to a running loop: the stack moves as
      `Effect` says, and text inside an element that is not blank adds one
      value. */
  lemma StepKeepsRunning(stack: seq<string>, vals: seq<XmlValue>, e: Event, dec: Decoder)
    requires !e.Eof? && !e.Malformed?
    requires e.Start? ==> dec.tagName(e.rawName).Some?
    requires e.Text? && |stack| > 0 ==> dec.unescape(e.rawText).Some?
    ensures Step(Running(State(stack, vals)), e, dec) ==
            Running(State(Effect(stack, e, dec),
                          if e.Text? && |stack| > 0 && !IsBlank(dec.unescape(e.rawText).value)
                          then vals + [Leaf(stack, dec.unescape(e.rawText).value)]
                          else vals))
  {
  }

  /** Before the first Eof and with no failure so far, the loop is running
      with the described stack and values. */
  lemma ExpectedWhileRunning(events: seq<Event>, n: nat, dec: Decoder)
    requires n <= EofIndex(events) && FirstFailure(events, n, dec).None?
    ensures Expected(events, n, dec) == Running(State(StackAt(events, n, dec), Leaves(events, n, dec)))
  {
  }

  /** The values yielded by one more event. */
  lemma LeavesNext(events: seq<Event>, m: nat, dec: Decoder)
    requires m < |events|
    ensures Emits(events, m, dec) ==>
              Leaves(events, m + 1, dec) == Leaves(events, m, dec) + [Leaf(StackAt(events, m, dec), dec.unescape(events[m].rawText).value)]
    ensures !Emits(events, m, dec) ==> Leaves(events, m + 1, dec) == Leaves(events, m, dec)
  {
  }

  /** Before the first Eof and with no failure so far, an event that does not
      abort moves the stack as `Effect` says and adds its value, if any. */
  lemma ExpectedNextRuns(events: seq<Event>, m: nat, dec: Decoder)
    requires m < EofIndex(events) && FirstFailure(events, m, dec).None? && !FailsAt(events, m, dec)
    ensures Step(Expected(events, m, dec), events[m], dec) == Expected(events, m + 1, dec)
  {
    assert FirstFailure(events, m + 1, dec).None?;
    ExpectedWhileRunning(events, m, dec);
    ExpectedWhileRunning(events, m + 1, dec);
    StackAtNext(events, m, dec);
    LeavesNext(events, m, dec);
    StepKeepsRunning(StackAt(events, m, dec), Leaves(events, m, dec), events[m], dec);
  }

  /** One more event moves the loop from where the description puts it after
      `m` events to where it puts it after `m + 1`. */
  lemma ExpectedNext(events: seq<Event>, m: nat, dec: Decoder)
    requires m < |events|
    ensures Step(Expected(events, m, dec), events[m], dec) == Expected(events, m + 1, dec)
  {
    if EofIndex(events) <= m {
      ExpectedNextPastEof(events, m, dec);
    } else if FirstFailure(events, m, dec).Some? {
      assert FirstFailure(events, m + 1, dec) == FirstFailure(events, m, dec);
    } else if FailsAt(events, m, dec) {
      ExpectedNextFails(events, m, dec);
    } else {
      ExpectedNextRuns(events, m, dec);
    }
  }

  /** After any prefix, the loop stands where the description says. */
  lemma {:induction false} WalkMatchesExpected(events: seq<Event>, n: nat, dec: Decoder)
    requires n <= |events|
    ensures Walk(Initial, events[..n], dec) == Expected(events, n, dec)
  {
    if n > 0 {
      var m := n - 1;
      WalkMatchesExpected(events, m, dec);
      assert events[..n][..m] == events[..m];
      ExpectedNext(events, m, dec);
    }
  }

  /** The loop computes exactly the description. */
  lemma ExtractMatchesReference(events: seq<Event>, dec: Decoder)
    ensures Extract(events, dec) == Reference(events, dec)
  {
    WalkMatchesExpected(events, |events|, dec);
    assert events[..|events|] == events;
  }

  /** The indices of the events that yield values among the first `n`, in
      increasing order. */
  function Sources(events: seq<Event>, n: nat, dec: Decoder): (r: seq<nat>)
    requires n <= |events|
    ensures forall j :: 0 <= j < |r| ==> r[j] < n && Emits(events, r[j], dec)
    ensures forall j, l :: 0 <= j < l < |r| ==> r[j] < r[l]
    ensures forall i :: 0 <= i < n && Emits(events, i, dec) ==> i in r
  {
    if n == 0 then []
    else Sources(events, n - 1, dec) + (if Emits(events, n - 1, dec) then [n - 1] else [])
  }

  /** The j-th value comes from the j-th yielding event. */
  lemma {:induction false} LeavesFollowSources(events: seq<Event>, n: nat, dec: Decoder)
    requires n <= |events|
    ensures |Leaves(events, n, dec)| == |Sources(events, n, dec)|
    ensures forall j :: 0 <= j < |Sources(events, n, dec)| ==>
              Leaves(events, n, dec)[j] == LeafAt(events, Sources(events, n, dec)[j], dec)
  {
    if n > 0 {
      LeavesFollowSources(events, n - 1, dec);
    }
  }

  /** How many of the first `n` events are text. */
  function TextCount(events: seq<Event>, n: nat): nat
    requires n <= |events|
  {
    if n == 0 then 0 else TextCount(events, n - 1) + (if events[n - 1].Text? then 1 else 0)
  }

  lemma {:induction false} LeavesBoundedByText(events: seq<Event>, n: nat, dec: Decoder)
    requires n <= |events|
    ensures |Leaves(events, n, dec)| <= TextCount(events, n)
  {
    if n > 0 {
      LeavesBoundedByText(events, n - 1, dec);
    }
  }

  /** Every value `load_file` returns comes from one text event before the
      first Eof, in event order and one value per event: its name is the
      innermost open tag there, its path the `/`-join of the tags around it
      (empty for text directly inside the root), its value the unescaped text, which is
      never blank. Every text event that qualifies is represented. */
  lemma ExtractedValuesDescribeTheirTags(events: seq<Event>, dec: Decoder)
    requires Extract(events, dec).Ok?
    ensures var vs := Extract(events, dec).value;
            var src := Sources(events, EofIndex(events), dec);
            && |vs| == |src|
            && (forall j, l :: 0 <= j < l < |src| ==> src[j] < src[l])
            && (forall i :: 0 <= i < EofIndex(events) && Emits(events, i, dec) ==> i in src)
            && forall j :: 0 <= j < |vs| ==>
                 && src[j] < EofIndex(events)
                 && events[src[j]].Text?
                 && var stack := StackAt(events, src[j], dec);
                 && |stack| > 0
                 && vs[j].name == stack[|stack| - 1]
                 && vs[j].path == Join(stack[..|stack| - 1], PathSeparator)
                 && dec.unescape(events[src[j]].rawText) == Some(vs[j].value)
                 && !IsBlank(vs[j].value)
  {
    ExtractMatchesReference(events, dec);
    LeavesFollowSources(events, EofIndex(events), dec);
  }

  /** There are never more values than text events before the first Eof. */
  lemma ValuesBoundedByTextEvents(events: seq<Event>, dec: Decoder)
    requires Extract(events, dec).Ok?
    ensures |Extract(events, dec).value| <= TextCount(events, EofIndex(events))
  {
    ExtractMatchesReference(events, dec);
    LeavesBoundedByText(events, EofIndex(events), dec);
  }

  /** The call succeeds exactly when no event before the first Eof aborts it;
      otherwise it returns the first such event's error and no values at all. */
  lemma ExtractFailsIffSomeEventFails(events: seq<Event>, dec: Decoder)
    ensures Extract(events, dec).Ok? <==>
              forall i :: 0 <= i < EofIndex(events) ==> !FailsAt(events, i, dec)
    ensures Extract(events, dec).Err? ==>
              var i := FirstFailure(events, EofIndex(events), dec).value;
              Extract(events, dec).error == ErrorAt(events, i, dec)
  {
    ExtractMatchesReference(events, dec);
  }

  /** A reader error before the first Eof always aborts the call. */
  lemma ReaderErrorAborts(events: seq<Event>, i: nat, dec: Decoder)
    requires i < EofIndex(events) && events[i].Malformed?
    ensures Extract(events, dec).Err?
  {
    ExtractFailsIffSomeEventFails(events, dec);
    assert FailsAt(events, i, dec);
  }

  /** A start tag whose name is not UTF-8, before the first Eof, always aborts
      the call. */
  lemma NonUtf8NameAborts(events: seq<Event>, i: nat, dec: Decoder)
    requires i < EofIndex(events) && events[i].Start? && dec.tagName(events[i].rawName).None?
    ensures Extract(events, dec).Err?
  {
    ExtractFailsIffSomeEventFails(events, dec);
    assert FailsAt(events, i, dec);
  }

  /** Event `i` happens inside an element called `name`: the innermost tag
      open there is `name`. */
  predicate InsideTag(events: seq<Event>, i: nat, dec: Decoder, name: string)
    requires i <= |events|
  {
    var stack := StackAt(events, i, dec);
    |stack| > 0 && stack[|stack| - 1] == name
  }

  /** A loaded value called `name` comes from a yielding text event before the
      first Eof, inside an element called `name`. */
  lemma NamedValueComesFromTag(events: seq<Event>, dec: Decoder, name: string, j: nat)
    requires Extract(events, dec).Ok?
    requires j < |Extract(events, dec).value| && Extract(events, dec).value[j].name == name
    ensures exists i :: 0 <= i < EofIndex(events) && Emits(events, i, dec) && InsideTag(events, i, dec, name)
  {
    ExtractedValuesDescribeTheirTags(events, dec);
    var i := Sources(events, EofIndex(events), dec)[j];
    assert i < EofIndex(events) && Emits(events, i, dec) && InsideTag(events, i, dec, name);
  }

  /** Conversely, a yielding text event before the first Eof, inside an
      element called `name`, shows up as a loaded value called `name`. */
  lemma TagYieldsNamedValue(events: seq<Event>, dec: Decoder, name: string, i: nat)
    requires Extract(events, dec).Ok?
    requires i < EofIndex(events) && Emits(events, i, dec) && InsideTag(events, i, dec, name)
    ensures exists j :: 0 <= j < |Extract(events, dec).value| && Extract(events, dec).value[j].name == name
  {
    ExtractedValuesDescribeTheirTags(events, dec);
    var src := Sources(events, EofIndex(events), dec);
    assert i in src;
    var j :| 0 <= j < |src| && src[j] == i;
    assert Extract(events, dec).value[j].name == name;
  }

  /** A loaded list has a value called `name` exactly when some text event
      before the first Eof yields a value inside an element called `name`. */
  lemma LoadedNameIffTag(events: seq<Event>, dec: Decoder, name: string)
    requires Extract(events, dec).Ok?
    ensures (exists j :: 0 <= j < |Extract(events, dec).value| && Extract(events, dec).value[j].name == name)
            <==> exists i :: 0 <= i < EofIndex(events) && Emits(events, i, dec) && InsideTag(events, i, dec, name)
  {
    var vs := Extract(events, dec).value;
    if j :| 0 <= j < |vs| && vs[j].name == name {
      NamedValueComesFromTag(events, dec, name, j);
    }
    if i :| 0 <= i < EofIndex(events) && Emits(events, i, dec) && InsideTag(events, i, dec, name) {
      TagYieldsNamedValue(events, dec, name, i);
    }
  }

  /** Text directly inside the root element yields a value with an empty path,
      named after the root. */
  lemma RootTextHasEmptyPath(events: seq<Event>, i: nat, dec: Decoder)
    requires i < |events| && Emits(events, i, dec)
    requires |StackAt(events, i, dec)| == 1
    ensures LeafAt(events, i, dec).path == []
    ensures LeafAt(events, i, dec).name == StackAt(events, i, dec)[0]
  {
  }

  /** Text inside a child of the root yields a value whose path is the root's
      name and whose name is the child's: `<A><B>1.0</B></A>` gives path "A",
      name "B". */
  lemma ChildOfRootHasRootPath(events: seq<Event>, i: nat, dec: Decoder)
    requires i < |events| && Emits(events, i, dec)
    requires |StackAt(events, i, dec)| == 2
    ensures LeafAt(events, i, dec).path == StackAt(events, i, dec)[0]
    ensures LeafAt(events, i, dec).name == StackAt(events, i, dec)[1]
  {
    var stack := StackAt(events, i, dec);
    assert stack[..1] == [stack[0]];
  }
}
