/** `reader::read`: the MRT reader hands out one event per call.  It keeps
    the events of the record parsed last in a queue and takes them from the
    back; once the queue is empty it parses the next record, and it reports
    the end of the input once the stream's end-of-file flag is set. */
module Reader {
  import opened Bytes
  import opened MrtEvents
  import opened Mrt

  /** What one call of `read` returns: an event, the `end_of_input` error,
      the `parse_error` error, or `no_error` (a record without events). */
  datatype ReadResult = Got(event: Event) | EndOfInput | ParseError | NoError

  /** The reader's state: the stream (octets, position, end-of-file flag)
      and the event queue. */
  datatype ReaderState = ReaderState(data: seq<Byte>, pos: nat, eof: bool, queue: seq<Event>)

  predicate ValidState(s: ReaderState)
  {
    s.pos <= |s.data| && (s.eof ==> s.pos == |s.data|)
  }

  /** The result of one call of `read`, and the state it leaves. */
  datatype Step = Step(result: ReadResult, state: ReaderState)

  /** One call of `read`.  A non-empty queue gives up its last event; an
      exhausted stream reports the end of the input and changes nothing;
      otherwise one record is parsed into the queue, and the call fails on
      a parse error (keeping whatever the parser appended), gives up the
      last appended event, or reports that there was none. */
  function ReadStep(s: ReaderState): (t: Step)
    requires ValidState(s)
    ensures ValidState(t.state) && t.state.data == s.data
    ensures s.queue != [] ==>
              t == Step(Got(s.queue[|s.queue| - 1]), s.(queue := s.queue[..|s.queue| - 1]))
    ensures t.result == EndOfInput <==> s.queue == [] && s.eof
    ensures t.result == EndOfInput ==> t.state == s
  {
    if s.queue != [] then
      Step(Got(s.queue[|s.queue| - 1]), s.(queue := s.queue[..|s.queue| - 1]))
    else if s.eof then
      Step(EndOfInput, s)
    else
      AfterParse(s.data, ParseRecord(s.data, s.pos))
  }

  /** The end of `read` once the parser ran on an empty queue and left the
      stream and the queue as the parse result `p` says. */
  function AfterParse(data: seq<Byte>, p: Parsed): (t: Step)
    ensures t.state.data == data && t.state.pos == p.next && t.state.eof == p.atEnd
    ensures t.result.ParseError? <==> !p.ok
    ensures t.result.Got? <==> p.ok && p.events != []
    ensures t.result.ParseError? ==> t.state.queue == p.events
    ensures t.result.Got? ==> t.state.queue + [t.result.event] == p.events
    ensures t.result.NoError? ==> t.state.queue == []
  {
    var parsed := ReaderState(data, p.next, p.atEnd, p.events);
    if !p.ok then Step(ParseError, parsed)
    else if p.events != [] then
      Step(Got(p.events[|p.events| - 1]), parsed.(queue := p.events[..|p.events| - 1]))
    else Step(NoError, parsed)
  }

  /** The reader over an input stream. */
  class Reader {
    const input: InputStream
    var queue: seq<Event>

    function State(): ReaderState
      reads this, input
    {
      ReaderState(input.data, input.pos, input.eof, queue)
    }

    predicate Valid()
      reads this, input
    {
      input.Valid()
    }

    constructor (data: seq<Byte>)
      ensures Valid() && fresh(input)
      ensures State() == ReaderState(data, 0, false, [])
    {
      input := new InputStream(data);
      queue := [];
    }

    /** `reader::read`. */
    method Read() returns (r: ReadResult)
      requires Valid()
      modifies this, input
      ensures Valid()
      ensures var t := ReadStep(old(State())); r == t.result && State() == t.state
    {
      if queue != [] {
        r := Got(queue[|queue| - 1]);
        queue := queue[..|queue| - 1];
        return;
      }
      if input.eof {
        return EndOfInput;
      }
      ghost var s0 := State();
      ghost var p := ParseRecord(s0.data, s0.pos);
      assert ReadStep(s0) == AfterParse(s0.data, p);
      var outcome := Parse(input);
      queue := queue + outcome.events;
      assert Parsed(outcome.ok, queue, input.pos, input.eof) == p;
      r := AfterParsing(outcome.ok);
    }

    /** The tail of `reader::read` after the parser ran on an empty queue. */
    method AfterParsing(ok: bool) returns (r: ReadResult)
      modifies this
      ensures var t := AfterParse(input.data, Parsed(ok, old(queue), input.pos, input.eof));
              r == t.result && queue == t.state.queue
    {
      if !ok {
        return ParseError;
      }
      if queue != [] {
        r := Got(queue[|queue| - 1]);
        queue := queue[..|queue| - 1];
        return;
      }
      r := NoError;
    }
  }

  // ---------------------------------------------------------------------
  // Properties

  /** Calls of `read` in a row: their results and the state they leave. */
  datatype Run = Run(results: seq<ReadResult>, state: ReaderState)

  function Reads(s: ReaderState, n: nat): (run: Run)
    requires ValidState(s)
    ensures |run.results| == n && ValidState(run.state)
    decreases n
  {
    if n == 0 then Run([], s)
    else
      var t := ReadStep(s);
      var rest := Reads(t.state, n - 1);
      Run([t.result] + rest.results, rest.state)
  }

  /** The events of a queue in the order `read` hands them out: last first. */
  function Drained(queue: seq<Event>): (results: seq<ReadResult>)
    ensures |results| == |queue|
    ensures forall i | 0 <= i < |queue| :: results[i] == Got(queue[|queue| - 1 - i])
  {
    if queue == [] then []
    else [Got(queue[|queue| - 1])] + Drained(queue[..|queue| - 1])
  }

  /** Reading as many times as there are queued events hands them all out,
      last first, and leaves the stream untouched. */
  lemma {:induction false} DrainQueue(s: ReaderState)
    requires ValidState(s)
    ensures Reads(s, |s.queue|) == Run(Drained(s.queue), s.(queue := []))
    decreases |s.queue|
  {
    if s.queue != [] {
      var t := ReadStep(s);
      assert t.state == s.(queue := s.queue[..|s.queue| - 1]);
      DrainQueue(t.state);
    }
  }

  /** Once `read` reports the end of the input, every later call does too. */
  lemma {:induction false} EndOfInputStays(s: ReaderState, n: nat)
    requires ValidState(s) && ReadStep(s).result == EndOfInput
    ensures Reads(s, n) == Run(seq(n, i => EndOfInput), s)
  {
    if n > 0 {
      EndOfInputStays(s, n - 1);
      assert [EndOfInput] + seq(n - 1, i => EndOfInput) == seq(n, i => EndOfInput);
    }
  }

  /** What is still to be read from the stream: the octets after the
      position, and one more read while the end-of-file flag is clear. */
  function StreamLeft(s: ReaderState): nat
    requires ValidState(s)
  {
    |s.data| - s.pos + (if s.eof then 0 else 1)
  }

  /** Every call that does not report the end of the input makes progress:
      it either consumes stream or, with the stream where it was, shortens
      the queue.  A loop of `read` until the end of the input terminates. */
  lemma ReadProgress(s: ReaderState)
    requires ValidState(s) && ReadStep(s).result != EndOfInput
    ensures var t := ReadStep(s).state;
            StreamLeft(t) < StreamLeft(s) ||
            (StreamLeft(t) == StreamLeft(s) && |t.queue| < |s.queue|)
  {
    if s.queue == [] {
      ParseProgress(s.data, s.pos);
      var p := ParseRecord(s.data, s.pos);
      if !p.atEnd {
        assert p.next >= s.pos + HeaderLength;
      }
    }
  }

  /** A parse error keeps the events the parser appended before it failed:
      the following calls hand them out, last first, before the reader
      parses on from where the failed record left the stream. */
  lemma ParseErrorKeepsEvents(s: ReaderState)
    requires ValidState(s) && ReadStep(s).result == ParseError
    ensures var p := ParseRecord(s.data, s.pos);
            var t := ReadStep(s).state;
            !p.ok && t.pos == p.next &&
            Reads(t, |p.events|) == Run(Drained(p.events), t.(queue := []))
  {
    DrainQueue(ReadStep(s).state);
  }

  /** A record on the stream, with the queue empty: the reads hand out the
      record's events last first, and leave the stream right after the
      record. */
  lemma ReadEncodedRecord(before: seq<Byte>, h: MrtHeader, body: seq<Byte>, after: seq<Byte>)
    requires HeaderInRange(h) && h.length == |body|
    requires DecodeRecord(h, body).ok && DecodeRecord(h, body).events != []
    ensures var data := before + EncodeRecord(h, body) + after;
            var events := DecodeRecord(h, body).events;
            Reads(ReaderState(data, |before|, false, []), |events|) ==
              Run(Drained(events), ReaderState(data, |before| + HeaderLength + |body|, false, []))
  {
    var data := before + EncodeRecord(h, body) + after;
    var events := DecodeRecord(h, body).events;
    var s := ReaderState(data, |before|, false, []);
    var next := |before| + HeaderLength + |body|;
    ParseEncodedRecord(before, h, body, after);
    var t := ReadStep(s);
    var rest := events[..|events| - 1];
    assert t == Step(Got(events[|events| - 1]), ReaderState(data, next, false, rest));
    DrainQueue(t.state);
    assert Drained(events) == [Got(events[|events| - 1])] + Drained(rest);
  }
}
