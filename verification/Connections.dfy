/** What happens to each read from a connection: its bytes go to the end of the input buffer, then the
    codec is called once. Between two reads the buffer, the callbacks made and the server's state stay
    exactly what the bytes received so far determine. */
module Connections {
  import opened Options
  import opened Bytes
  import opened Codecs
  import opened Framing
  import opened GuestClock
  import opened GuestStore
  import opened GuestRetention
  import opened NetBuffer
  import opened QueryReply

  lemma OutcomeAhead(d: Dialect, fs: seq<Frame>, calls: seq<Frame>, todo: seq<Frame>, content: seq<Byte>)
    requires AllSendable(d, fs) && fs == calls + todo && Stream(calls) + content <= Stream(fs)
    ensures Parse(d, content).Wait? || Parse(d, content).Callback?
  {
    assert forall i :: 0 <= i < |todo| ==> todo[i] == fs[|calls| + i];
    NextDelivery(d, calls, todo, content);
  }

  /** A stream of well-formed frames never makes onMessage discard bytes or read beyond them. */
  lemma OnlyKnownFrames(d: Dialect, fs: seq<Frame>, received: seq<Byte>, st: Fed)
    requires AllSendable(d, fs) && received <= Stream(fs) && Synchronised(d, fs, received, st)
    ensures Parse(d, st.content).Wait? || Parse(d, st.content).Callback?
  {
    OutcomeAhead(d, fs, st.calls, fs[|st.calls|..], st.content);
  }

  /** What one more read does to a connection over which well-formed frames are being sent. */
  lemma NextRead(d: Dialect, fs: seq<Frame>, received: seq<Byte>, chunk: seq<Byte>, st: Fed)
    requires AllSendable(d, fs) && received + chunk <= Stream(fs) && Synchronised(d, fs, received, st)
    ensures var full := st.(content := st.content + chunk);
            && (Parse(d, full.content).Wait? || Parse(d, full.content).Callback?)
            && Synchronised(d, fs, received + chunk, Deliver(d, full))
            && |Deliver(d, full).calls| == Min(|st.calls| + 1, Complete(fs, |received + chunk|))
  {
    var full := st.(content := st.content + chunk);
    Receive(d, fs, received, chunk, st);
    DeliverRead(d, fs, received, chunk, st);
    OnlyKnownFrames(d, fs, received + chunk, full);
  }

  /** A read on a connection to the compare server. `calls` are the callbacks made on it so far. */
  method ReadCompare(codec: CompareCodec, buf: Buffer, chunk: seq<Byte>,
                     ghost fs: seq<Frame>, ghost received: seq<Byte>, ghost calls: seq<Frame>)
    returns (call: Option<Frame>)
    requires buf.Valid() && AllSendable(CompareServer, fs) && received + chunk <= Stream(fs)
    requires Synchronised(CompareServer, fs, received, Fed(calls, buf.Contents(), true))
    modifies buf, buf.buffer
    ensures buf.Valid()
    ensures var calls' := if call.Some? then calls + [call.value] else calls;
            && Synchronised(CompareServer, fs, received + chunk, Fed(calls', buf.Contents(), true))
            && |calls'| == Min(|calls| + 1, Complete(fs, |received + chunk|))
  {
    NextRead(CompareServer, fs, received, chunk, Fed(calls, buf.Contents(), true));
    buf.Append(chunk);
    call := codec.OnMessage(buf);
  }

  /** The clock readings of the next push and sweep, if there is one, fall on the same day as before. */
  predicate InDay(events: seq<Event>, addNow: nat, sweepNow: nat)
  {
    && addNow <= sweepNow < DAY && RETAIN <= sweepNow < addNow + RETAIN
    && forall j :: 0 <= j < |events| && events[j].Add? ==> events[j].sweepNow <= addNow
  }

  lemma OneDayExtends(events: seq<Event>, e: Event)
    requires OneDay(events) && (e.Add? ==> InDay(events, e.addNow, e.sweepNow))
    ensures OneDay(events + [e])
  {
    var events' := events + [e];
    forall i | 0 <= i < |events'| && events'[i].Add?
      ensures events'[i].addNow <= events'[i].sweepNow < DAY
      ensures RETAIN <= events'[i].sweepNow < events'[i].addNow + RETAIN
      ensures forall j :: i < j < |events'| && events'[j].Add? ==> events'[i].sweepNow <= events'[j].addNow
    {
      assert i < |events| ==> events'[i] == events[i];
    }
  }

  lemma RunAppend(events: seq<Event>, e: Event)
    ensures Run(events + [e]) == Handle(Run(events), e)
  {
    assert (events + [e])[..|events|] == events;
  }

  /** On one day the sweep that follows a push stays inside the list. */
  lemma NextPushIsSwept(events: seq<Event>, e: Event)
    requires OneDay(events) && e.Add? && InDay(events, e.addNow, e.sweepNow)
    ensures !Overruns(Push(Run(events), e.id, e.bytes, e.addNow).list, Cutoff(e.sweepNow))
  {
    OneDayExtends(events, e);
    RetentionOnOneDay(events + [e]);
    RunAppend(events, e);
    PushOwned(Run(events), e.id, e.bytes, e.addNow);
    SweepDropsExpired(Push(Run(events), e.id, e.bytes, e.addNow), Cutoff(e.sweepNow));
  }

  /** The frame that an event of the store came from. */
  function FrameOf(e: Event): Frame
  {
    match e
    case Add(id, bytes, _, _) => Appl(id, bytes)
    case Query(id) => Qury(id)
  }

  function EventOf(f: Frame, addNow: nat, sweepNow: nat): (e: Event)
    requires f.Appl? || f.Qury?
    ensures FrameOf(e) == f
    ensures e.Add? ==> e.addNow == addNow && e.sweepNow == sweepNow
  {
    match f
    case Appl(id, bytes) => Add(id, bytes, addNow, sweepNow)
    case Qury(id) => Query(id)
  }

  lemma NextEvent(events: seq<Event>, e: Event)
    ensures Run(events + [e]) == Handle(Run(events), e)
    ensures e.Query? ==> Run(events + [e]) == Run(events)
    ensures OneDay(events) && (e.Add? ==> InDay(events, e.addNow, e.sweepNow)) ==>
              OneDay(events + [e]) && Run(events + [e]).inBounds
  {
    RunAppend(events, e);
    if OneDay(events) && (e.Add? ==> InDay(events, e.addNow, e.sweepNow)) {
      OneDayExtends(events, e);
      RetentionOnOneDay(events + [e]);
    }
  }

  /** What the server sends back for `e`, in the state that the earlier events led to. */
  ghost function ReplyTo(events: seq<Event>, e: Event): seq<Byte>
  {
    if e.Query? then Answer(View(Run(events)), e.id) else OK
  }

  /** One call of onMessage on a buffer with a frame, or part of one, at its front. */
  method Dispatch(codec: GuestCodec, buf: Buffer, addNow: nat, sweepNow: nat, ghost events: seq<Event>)
    returns (reply: seq<Byte>, ghost made: Option<Event>)
    requires buf.Valid() && codec.server.Valid()
    requires Parse(Dialect.GuestServer, buf.Contents()).Wait? || Parse(Dialect.GuestServer, buf.Contents()).Callback?
    requires codec.server.State() == Run(events)
    modifies buf, codec.server, codec.server.heap, codec.server.lock
    ensures buf.Valid() && codec.server.Valid() && buf.buffer == old(buf.buffer)
    ensures match old(Parse(Dialect.GuestServer, buf.Contents()))
            case Callback(f, rest) => made.Some? && FrameOf(made.value) == f && buf.Contents() == rest
            case _ => made.None? && buf.Contents() == old(buf.Contents())
    ensures var events' := if made.Some? then events + [made.value] else events;
            && codec.server.State() == Run(events')
            && (OneDay(events) && InDay(events, addNow, sweepNow) ==> OneDay(events') && codec.server.State().inBounds)
            && reply == if made.Some? then ReplyTo(events, made.value) else []
    ensures made.Some? && made.value.Add? ==> made.value.addNow == addNow && made.value.sweepNow == sweepNow
  {
    ghost var outcome := Parse(Dialect.GuestServer, buf.Contents());
    made := None;
    if outcome.Callback? {
      ghost var e := EventOf(outcome.frame, addNow, sweepNow);
      made := Some(e);
      NextEvent(events, e);
    } else if OneDay(events) {
      RetentionOnOneDay(events);
    }
    reply := codec.OnMessage(buf, addNow, sweepNow);
  }

  /** A read on one of the connections to the guest server. `calls` are the callbacks made on it so far,
      `events` those made on all connections. No read leaves the buffer, the server's state is the one that
      the model's run over all events gives, and within one day no sweep leaves the list. */
  method ReadGuest(codec: GuestCodec, buf: Buffer, chunk: seq<Byte>, addNow: nat, sweepNow: nat,
                   ghost fs: seq<Frame>, ghost received: seq<Byte>, ghost calls: seq<Frame>, ghost events: seq<Event>)
    returns (reply: seq<Byte>, ghost made: Option<Event>)
    requires buf.Valid() && codec.server.Valid()
    requires AllSendable(Dialect.GuestServer, fs) && received + chunk <= Stream(fs)
    requires Synchronised(Dialect.GuestServer, fs, received, Fed(calls, buf.Contents(), true))
    requires codec.server.State() == Run(events)
    modifies buf, buf.buffer, codec.server, codec.server.heap, codec.server.lock
    ensures buf.Valid() && codec.server.Valid()
    ensures var calls' := if made.Some? then calls + [FrameOf(made.value)] else calls;
            && Synchronised(Dialect.GuestServer, fs, received + chunk, Fed(calls', buf.Contents(), true))
            && |calls'| == Min(|calls| + 1, Complete(fs, |received + chunk|))
    ensures var events' := if made.Some? then events + [made.value] else events;
            && codec.server.State() == Run(events')
            && (OneDay(events) && InDay(events, addNow, sweepNow) ==> OneDay(events') && codec.server.State().inBounds)
            && reply == if made.Some? then ReplyTo(events, made.value) else []
    ensures made.Some? && made.value.Add? ==> made.value.addNow == addNow && made.value.sweepNow == sweepNow
  {
    NextRead(Dialect.GuestServer, fs, received, chunk, Fed(calls, buf.Contents(), true));
    buf.Append(chunk);
    reply, made := Dispatch(codec, buf, addNow, sweepNow, events);
  }
}
