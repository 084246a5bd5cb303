/** The length-prefixed frames that both codecs accept, and what a stream of them is parsed into. */
module Framing {
  import opened Bytes

  const HEADER: nat := 4  // bytes in each of the length, flag and id fields
  const COMP: nat := 0x636f6d70
  const ADDF: nat := 0x61646466
  const ADDG: nat := 0x61646467
  const APPL: nat := 0x6170706c
  const QURY: nat := 0x71757279

  /** Which codec is listening: each recognises only its own flags. */
  datatype Dialect = CompareServer | GuestServer

  datatype Frame =
    | Comp(payload: seq<Byte>)
    | Addf(id: int, payload: seq<Byte>)
    | Addg(id: int, payload: seq<Byte>)
    | Appl(id: int, payload: seq<Byte>)
    | Qury(id: int)

  /** What one call of onMessage does: nothing yet, one callback, eight bytes of an unknown frame
      discarded, or a read outside the readable bytes. */
  datatype Outcome =
    | Wait
    | Callback(frame: Frame, rest: seq<Byte>)
    | Discard(rest: seq<Byte>)
    | OutOfBounds

  function Host32(s: seq<Byte>): int
    requires |s| == 4
  {
    Signed(FromLe(s), 4)
  }

  function Flag(s: seq<Byte>): nat
    requires |s| == 4
  {
    FromBe(s)
  }

  /** The conversion that C++ applies to the signed length before comparing it with a size_t. */
  function AsSizeT(x: int): int
  {
    if x < 0 then x + 0x1_0000_0000_0000_0000 else x
  }

  predicate Dispatches(content: seq<Byte>)
  {
    |content| > HEADER && AsSizeT(Host32(content[..4])) <= |content|
  }

  function Parse(d: Dialect, content: seq<Byte>): Outcome
  {
    if !Dispatches(content) then Wait
    else if |content| < 8 then OutOfBounds
    else
      var len := Host32(content[..4]);
      var flag := Flag(content[4..8]);
      if d.CompareServer? && flag == COMP then
        if len < 8 then OutOfBounds else Callback(Comp(content[8..len]), content[len..])
      else if d.CompareServer? && (flag == ADDF || flag == ADDG) then
        if len < 12 then OutOfBounds
        else
          var id, payload := Host32(content[8..12]), content[12..len];
          Callback(if flag == ADDF then Addf(id, payload) else Addg(id, payload), content[len..])
      else if d.GuestServer? && flag == APPL then
        if len < 12 then OutOfBounds
        else Callback(Appl(Host32(content[8..12]), content[12..len]), content[len..])
      else if d.GuestServer? && flag == QURY then
        if |content| < 12 then OutOfBounds
        else Callback(Qury(Host32(content[8..12])), content[12..])
      else Discard(content[8..])
  }

  /** A negative length field never dispatches, whatever follows it. */
  lemma NegativeLengthWaits(d: Dialect, content: seq<Byte>)
    requires 4 <= |content| < 0x8000_0000_0000_0000
    requires Host32(content[..4]) < 0
    ensures Parse(d, content) == Wait
  {
    Pow256Values();
    ToLeFromLe(content[..4]);
  }

  // ----- the frames a client may send -----

  function FlagOf(f: Frame): nat
  {
    match f
    case Comp(_) => COMP
    case Addf(_, _) => ADDF
    case Addg(_, _) => ADDG
    case Appl(_, _) => APPL
    case Qury(_) => QURY
  }

  function Unsigned32(x: int): nat
  {
    if x < 0 && -0x8000_0000 <= x then x + 0x1_0000_0000 else if x < 0 then 0 else x
  }

  /** Every frame but `comp` carries an id, and every frame but `qury` a picture. */
  function IdField(f: Frame): seq<Byte>
  {
    if f.Comp? then [] else ToLe(Unsigned32(f.id), 4)
  }

  function Payload(f: Frame): seq<Byte>
  {
    if f.Qury? then [] else f.payload
  }

  function Length(f: Frame): nat
  {
    (if f.Comp? then 8 else 12) + |Payload(f)|
  }

  /** A frame some client of this server can build: its length and id fit their 32-bit fields. */
  predicate Sendable(d: Dialect, f: Frame)
  {
    && (d.CompareServer? <==> f.Comp? || f.Addf? || f.Addg?)
    && (!f.Comp? ==> Fits(f.id, 4))
    && Length(f) < 0x8000_0000
  }

  /** The length field counts the whole frame, itself included. */
  function Encode(f: Frame): (s: seq<Byte>)
    ensures |s| == Length(f)
  {
    ToLe(Length(f), 4) + ToBe(FlagOf(f), 4) + IdField(f) + Payload(f)
  }

  function Concat(chunks: seq<seq<Byte>>): seq<Byte>
  {
    if chunks == [] then [] else Concat(chunks[..|chunks| - 1]) + chunks[|chunks| - 1]
  }

  function Stream(fs: seq<Frame>): seq<Byte>
  {
    Concat(seq(|fs|, i requires 0 <= i < |fs| => Encode(fs[i])))
  }

  function StreamLength(fs: seq<Frame>): nat
  {
    if fs == [] then 0 else Length(fs[0]) + StreamLength(fs[1..])
  }

  /** How many of the leading frames lie wholly within the first `n` bytes of their stream. */
  function Complete(fs: seq<Frame>, n: nat): (k: nat)
    ensures k <= |fs|
    decreases |fs|
  {
    if fs == [] || n < Length(fs[0]) then 0 else 1 + Complete(fs[1..], n - Length(fs[0]))
  }

  /** `e` has the layout of a frame that carries `f`. */
  predicate Carries(e: seq<Byte>, f: Frame)
  {
    && |e| >= (if f.Comp? then 8 else 12)
    && Host32(e[..4]) == |e|
    && Flag(e[4..8]) == FlagOf(f)
    && (!f.Comp? ==> Host32(e[8..12]) == f.id)
    && e[if f.Comp? then 8 else 12..] == Payload(f)
  }

  lemma HostFieldReadsBack(x: int)
    requires Fits(x, 4)
    ensures Host32(ToLe(Unsigned32(x), 4)) == x
  {
    Pow256Values();
    FromLeToLe(Unsigned32(x), 4);
    SignedUnsigned(x, 4);
  }

  lemma LayoutCarries(f: Frame, head: seq<Byte>, flag: seq<Byte>, id: seq<Byte>)
    requires |head| == 4 && |flag| == 4 && |id| == if f.Comp? then 0 else 4
    requires Host32(head) == Length(f) && Flag(flag) == FlagOf(f)
    requires !f.Comp? ==> Host32(id) == f.id
    ensures Carries(head + flag + id + Payload(f), f)
  {
    var e := head + flag + id + Payload(f);
    assert e[..4] == head && e[4..8] == flag;
    if f.Comp? {
      assert e[8..] == Payload(f);
    } else {
      assert e[8..12] == id && e[12..] == Payload(f);
    }
  }

  lemma FlagReadsBack(f: Frame)
    ensures Flag(ToBe(FlagOf(f), 4)) == FlagOf(f)
  {
    Pow256Values();
    FromBeToBe(FlagOf(f), 4);
  }

  lemma EncodeCarries(d: Dialect, f: Frame)
    requires Sendable(d, f)
    ensures Carries(Encode(f), f)
  {
    HostFieldReadsBack(Length(f)) by { Pow256Values(); }
    if !f.Comp? {
      HostFieldReadsBack(f.id);
    }
    FlagReadsBack(f);
    LayoutCarries(f, ToLe(Length(f), 4), ToBe(FlagOf(f), 4), IdField(f));
  }

  /** Once its last byte has arrived, a frame is delivered and exactly its bytes are consumed. */
  lemma ParseWhole(d: Dialect, f: Frame, e: seq<Byte>, rest: seq<Byte>)
    requires Sendable(d, f) && Carries(e, f)
    ensures Parse(d, e + rest) == Callback(f, rest)
  {
    var c := e + rest;
    assert c[..4] == e[..4] && c[4..8] == e[4..8];
    assert c[|e|..] == rest && c[8..|e|] == e[8..];
    if !f.Comp? {
      assert c[8..12] == e[8..12];
      assert c[12..|e|] == e[12..];
    }
  }

  /** Until then the codec waits and consumes nothing. */
  lemma ParsePartial(d: Dialect, f: Frame, e: seq<Byte>, content: seq<Byte>)
    requires Carries(e, f)
    requires content <= e && |content| < |e|
    ensures Parse(d, content) == Wait
  {
    if |content| > HEADER {
      assert content[..4] == e[..4];
    }
  }

  /** The two cases together, for a buffer that holds some of the bytes of `f` and what follows it. */
  lemma ParseHead(d: Dialect, f: Frame, e: seq<Byte>, tail: seq<Byte>, content: seq<Byte>)
    requires Sendable(d, f) && Carries(e, f)
    requires content <= e + tail
    ensures |content| < |e| ==> Parse(d, content) == Wait
    ensures |content| >= |e| ==> content[..|e|] == e && Parse(d, content) == Callback(f, content[|e|..])
  {
    if |content| < |e| {
      assert content == e[..|content|];
      ParsePartial(d, f, e, content);
    } else {
      assert content == e + content[|e|..];
      ParseWhole(d, f, e, content[|e|..]);
    }
  }

  // ----- a stream cut into reads -----

  /** Callbacks made so far, bytes still buffered, and whether every read stayed in bounds. */
  datatype Fed = Fed(calls: seq<Frame>, content: seq<Byte>, inBounds: bool)

  function Absorb(st: Fed, outcome: Outcome): Fed
  {
    match outcome
    case Wait => st
    case Callback(f, rest) => st.(calls := st.calls + [f], content := rest)
    case Discard(rest) => st.(content := rest)
    case OutOfBounds => st.(inBounds := false)
  }

  function Deliver(d: Dialect, st: Fed): Fed
  {
    Absorb(st, Parse(d, st.content))
  }

  /** Each read is appended to the buffer and followed by one call of onMessage. */
  function Feed(d: Dialect, chunks: seq<seq<Byte>>): Fed
  {
    if chunks == [] then Fed([], [], true) else
      var before := Feed(d, chunks[..|chunks| - 1]);
      Deliver(d, before.(content := before.content + chunks[|chunks| - 1]))
  }

  function Min(a: int, b: int): int { if a <= b then a else b }

  predicate AllSendable(d: Dialect, fs: seq<Frame>)
  {
    forall i :: 0 <= i < |fs| ==> Sendable(d, fs[i])
  }

  /** The state of a connection over which `fs` are being sent, `received` bytes of them so far. */
  predicate Synchronised(d: Dialect, fs: seq<Frame>, received: seq<Byte>, st: Fed)
  {
    st.inBounds && st.calls <= fs && received == Stream(st.calls) + st.content
  }

  lemma Associates(a: seq<Byte>, b: seq<Byte>, c: seq<Byte>)
    ensures a + (b + c) == (a + b) + c
  {
  }

  lemma {:induction false} ConcatSplit(a: seq<seq<Byte>>, b: seq<seq<Byte>>)
    ensures Concat(a + b) == Concat(a) + Concat(b)
  {
    if b == [] {
      assert a + b == a;
    } else {
      var n := |b| - 1;
      ConcatSplit(a, b[..n]);
      assert (a + b)[..|a| + n] == a + b[..n];
      Associates(Concat(a), Concat(b[..n]), b[n]);
    }
  }

  lemma StreamSplit(fs: seq<Frame>, gs: seq<Frame>)
    ensures Stream(fs + gs) == Stream(fs) + Stream(gs)
  {
    var es := seq(|fs|, i requires 0 <= i < |fs| => Encode(fs[i]));
    var hs := seq(|gs|, i requires 0 <= i < |gs| => Encode(gs[i]));
    var all := fs + gs;
    assert seq(|all|, i requires 0 <= i < |all| => Encode(all[i])) == es + hs;
    ConcatSplit(es, hs);
  }

  lemma StreamOne(f: Frame)
    ensures Stream([f]) == Encode(f)
  {
    var fs := [f];
    var es := seq(|fs|, i requires 0 <= i < |fs| => Encode(fs[i]));
    assert Stream(fs) == Concat(es);
    assert es == [Encode(f)] && es[..0] == [];
    assert Concat([Encode(f)]) == [] + Encode(f);
  }

  lemma StreamHead(fs: seq<Frame>)
    requires fs != []
    ensures Stream(fs) == Encode(fs[0]) + Stream(fs[1..])
  {
    assert fs == [fs[0]] + fs[1..];
    StreamSplit([fs[0]], fs[1..]);
    StreamOne(fs[0]);
  }

  lemma {:induction false} StreamHasLength(fs: seq<Frame>)
    ensures |Stream(fs)| == StreamLength(fs)
  {
    if fs != [] {
      StreamHasLength(fs[1..]);
      StreamHead(fs);
    }
  }

  lemma {:induction false} CompleteSplit(fs: seq<Frame>, gs: seq<Frame>, n: nat)
    ensures Complete(fs + gs, StreamLength(fs) + n) == |fs| + Complete(gs, n)
  {
    if fs == [] {
      assert fs + gs == gs;
    } else {
      CompleteSplit(fs[1..], gs, n);
      assert (fs + gs)[1..] == fs[1..] + gs;
    }
  }

  lemma PrefixTail(a: seq<Byte>, b: seq<Byte>, c: seq<Byte>)
    requires a + c <= a + b
    ensures c <= b
  {
    assert c == (a + c)[|a|..] && b == (a + b)[|a|..];
  }

  /** The stream seen from behind the frames already delivered. */
  lemma StreamAhead(calls: seq<Frame>, todo: seq<Frame>, content: seq<Byte>)
    requires Stream(calls) + content <= Stream(calls + todo)
    ensures content <= Stream(todo)
  {
    StreamSplit(calls, todo);
    PrefixTail(Stream(calls), Stream(todo), content);
  }

  lemma CompleteAhead(calls: seq<Frame>, todo: seq<Frame>, content: seq<Byte>)
    ensures Complete(calls + todo, |Stream(calls) + content|) == |calls| + Complete(todo, |content|)
  {
    var n := |Stream(calls)|;
    assert n == StreamLength(calls) by { StreamHasLength(calls); }
    CompleteSplit(calls, todo, |content|);
  }

  lemma MoveAcross(a: seq<Byte>, e: seq<Byte>, c: seq<Byte>)
    requires |c| >= |e| && c[..|e|] == e
    ensures a + c == (a + e) + c[|e|..]
  {
    assert c == e + c[|e|..];
    Associates(a, e, c[|e|..]);
  }

  lemma StreamExtend(fs: seq<Frame>, f: Frame, content: seq<Byte>)
    requires |content| >= Length(f) && content[..Length(f)] == Encode(f)
    ensures Stream(fs) + content == Stream(fs + [f]) + content[Length(f)..]
  {
    StreamSplit(fs, [f]);
    StreamOne(f);
    MoveAcross(Stream(fs), Encode(f), content);
  }

  lemma ParseNext(d: Dialect, todo: seq<Frame>, content: seq<Byte>)
    requires todo != [] && Sendable(d, todo[0]) && content <= Stream(todo)
    ensures |content| < Length(todo[0]) ==> Parse(d, content) == Wait
    ensures |content| >= Length(todo[0]) ==>
              content[..Length(todo[0])] == Encode(todo[0])
              && Parse(d, content) == Callback(todo[0], content[Length(todo[0])..])
  {
    StreamHead(todo);
    EncodeCarries(d, todo[0]);
    ParseHead(d, todo[0], Encode(todo[0]), Stream(todo[1..]), content);
  }

  /** What onMessage does with the bytes received of the frames not yet delivered. */
  lemma NextOutcome(d: Dialect, calls: seq<Frame>, todo: seq<Frame>, content: seq<Byte>)
    requires AllSendable(d, todo) && content <= Stream(todo)
    ensures Complete(todo, |content|) == 0 ==> Parse(d, content) == Wait
    ensures Complete(todo, |content|) > 0 ==>
              var outcome := Parse(d, content);
              && todo != [] && outcome.Callback? && outcome.frame == todo[0]
              && |outcome.rest| < |content|
              && Stream(calls) + content == Stream(calls + [todo[0]]) + outcome.rest
  {
    if todo == [] {
      assert content == [];
    } else {
      ParseNext(d, todo, content);
      if |content| >= Length(todo[0]) {
        StreamExtend(calls, todo[0], content);
      }
    }
  }

  lemma NextDelivery(d: Dialect, calls: seq<Frame>, todo: seq<Frame>, content: seq<Byte>)
    requires AllSendable(d, todo) && Stream(calls) + content <= Stream(calls + todo)
    ensures Complete(calls + todo, |Stream(calls) + content|) == |calls| + Complete(todo, |content|)
    ensures Complete(todo, |content|) == 0 ==> Parse(d, content) == Wait
    ensures Complete(todo, |content|) > 0 ==>
              var outcome := Parse(d, content);
              && todo != [] && outcome.Callback? && outcome.frame == todo[0]
              && |outcome.rest| < |content|
              && Stream(calls) + content == Stream(calls + [todo[0]]) + outcome.rest
  {
    StreamAhead(calls, todo, content);
    CompleteAhead(calls, todo, content);
    NextOutcome(d, calls, todo, content);
  }

  lemma AbsorbNext(todo: seq<Frame>, st: Fed, outcome: Outcome, complete: nat)
    requires st.inBounds
    requires complete == 0 ==> outcome == Wait
    requires complete > 0 ==>
               && todo != [] && outcome.Callback? && outcome.frame == todo[0] && |outcome.rest| < |st.content|
               && Stream(st.calls) + st.content == Stream(st.calls + [todo[0]]) + outcome.rest
    ensures var next := Absorb(st, outcome);
            && next.inBounds && st.calls <= next.calls <= st.calls + todo
            && Stream(next.calls) + next.content == Stream(st.calls) + st.content
            && |next.calls| == |st.calls| + Min(1, complete)
            && (next.calls == st.calls ==> next == st)
            && (next.calls != st.calls ==> |next.content| < |st.content|)
  {
    if complete > 0 {
      assert Absorb(st, outcome) == Fed(st.calls + [todo[0]], outcome.rest, true);
    }
  }

  lemma DeliverNext(d: Dialect, todo: seq<Frame>, st: Fed)
    requires AllSendable(d, todo) && st.inBounds && Stream(st.calls) + st.content <= Stream(st.calls + todo)
    ensures var fs, received, next := st.calls + todo, Stream(st.calls) + st.content, Deliver(d, st);
            && next.inBounds && st.calls <= next.calls <= fs && received == Stream(next.calls) + next.content
            && |next.calls| == Min(|st.calls| + 1, Complete(fs, |received|))
            && (next.calls == st.calls ==> next == st)
            && (next.calls != st.calls ==> |next.content| < |st.content|)
  {
    NextDelivery(d, st.calls, todo, st.content);
    AbsorbNext(todo, st, Parse(d, st.content), Complete(todo, |st.content|));
  }

  /** One call of onMessage keeps the connection synchronised and delivers a frame iff one is complete. */
  lemma DeliverStep(d: Dialect, fs: seq<Frame>, received: seq<Byte>, st: Fed)
    requires AllSendable(d, fs)
    requires received <= Stream(fs) && Synchronised(d, fs, received, st)
    ensures Synchronised(d, fs, received, Deliver(d, st))
    ensures |Deliver(d, st).calls| == Min(|st.calls| + 1, Complete(fs, |received|))
    ensures st.calls <= Deliver(d, st).calls
    ensures Deliver(d, st).calls == st.calls ==> Deliver(d, st) == st
    ensures Deliver(d, st).calls != st.calls ==> |Deliver(d, st).content| < |st.content|
  {
    var todo := fs[|st.calls|..];
    assert fs == st.calls + todo;
    DeliverNext(d, todo, st);
  }

  lemma Receive(d: Dialect, fs: seq<Frame>, received: seq<Byte>, chunk: seq<Byte>, st: Fed)
    requires Synchronised(d, fs, received, st)
    ensures Synchronised(d, fs, received + chunk, st.(content := st.content + chunk))
  {
    Associates(Stream(st.calls), st.content, chunk);
  }

  lemma EarlierReads(d: Dialect, fs: seq<Frame>, chunks: seq<seq<Byte>>)
    requires chunks != [] && Concat(chunks) <= Stream(fs)
    ensures var earlier, chunk := chunks[..|chunks| - 1], chunks[|chunks| - 1];
            var before := Feed(d, earlier);
            && Concat(earlier) <= Stream(fs) && Concat(chunks) == Concat(earlier) + chunk
            && Feed(d, chunks) == Deliver(d, before.(content := before.content + chunk))
  {
  }

  /** What one more read does to a connection over which well-formed frames are being sent. */
  lemma DeliverRead(d: Dialect, fs: seq<Frame>, received: seq<Byte>, chunk: seq<Byte>, st: Fed)
    requires AllSendable(d, fs) && received + chunk <= Stream(fs) && Synchronised(d, fs, received, st)
    ensures var next := Deliver(d, st.(content := st.content + chunk));
            && Synchronised(d, fs, received + chunk, next) && st.calls <= next.calls
            && |next.calls| == Min(|st.calls| + 1, Complete(fs, |received + chunk|))
  {
    Receive(d, fs, received, chunk, st);
    DeliverStep(d, fs, received + chunk, st.(content := st.content + chunk));
  }

  /** However the stream is cut into reads: after every read the callbacks made are a prefix of the
      frames sent, they and the buffered bytes account for every byte received, and the number of
      callbacks is one more than before, capped by the number of frames that have fully arrived. */
  lemma {:induction false} FramingIsCutIndependent(d: Dialect, fs: seq<Frame>, chunks: seq<seq<Byte>>)
    requires AllSendable(d, fs) && Concat(chunks) <= Stream(fs)
    ensures Synchronised(d, fs, Concat(chunks), Feed(d, chunks))
    ensures chunks != [] ==>
              var before := Feed(d, chunks[..|chunks| - 1]);
              before.calls <= Feed(d, chunks).calls
              && |Feed(d, chunks).calls| == Min(|before.calls| + 1, Complete(fs, |Concat(chunks)|))
  {
    if chunks != [] {
      var earlier, chunk := chunks[..|chunks| - 1], chunks[|chunks| - 1];
      EarlierReads(d, fs, chunks);
      FramingIsCutIndependent(d, fs, earlier);
      DeliverRead(d, fs, Concat(earlier), chunk, Feed(d, earlier));
    }
  }

  /** Calling onMessage again and again until it waits. */
  function Drain(d: Dialect, st: Fed): Fed
    decreases |st.content|
  {
    var next := Deliver(d, st);
    if |next.content| < |st.content| then Drain(d, next) else next
  }

  /** Draining stops with exactly the complete frames delivered. */
  lemma {:induction false} DrainDeliversAll(d: Dialect, fs: seq<Frame>, received: seq<Byte>, st: Fed)
    requires AllSendable(d, fs)
    requires received <= Stream(fs) && Synchronised(d, fs, received, st)
    ensures Synchronised(d, fs, received, Drain(d, st))
    ensures Drain(d, st).calls == fs[..Complete(fs, |received|)]
    decreases |st.content|
  {
    var next := Deliver(d, st);
    DeliverStep(d, fs, received, st);
    if |next.content| < |st.content| {
      DrainDeliversAll(d, fs, received, next);
    }
  }

  /** Two ways of cutting the same bytes agree once both are drained. */
  lemma CutsAgreeWhenDrained(d: Dialect, fs: seq<Frame>, chunks: seq<seq<Byte>>, chunks': seq<seq<Byte>>)
    requires AllSendable(d, fs) && Concat(chunks) <= Stream(fs)
    requires Concat(chunks') == Concat(chunks)
    ensures Drain(d, Feed(d, chunks)) == Drain(d, Feed(d, chunks'))
  {
    FramingIsCutIndependent(d, fs, chunks);
    FramingIsCutIndependent(d, fs, chunks');
    DrainDeliversAll(d, fs, Concat(chunks), Feed(d, chunks));
    DrainDeliversAll(d, fs, Concat(chunks), Feed(d, chunks'));
    var a, b := Drain(d, Feed(d, chunks)), Drain(d, Feed(d, chunks'));
    assert a.content == Concat(chunks)[|Stream(a.calls)|..];
    assert b.content == Concat(chunks)[|Stream(b.calls)|..];
  }

  lemma StreamIsComplete(fs: seq<Frame>)
    ensures Complete(fs, |Stream(fs)|) == |fs|
  {
    StreamHasLength(fs);
    CompleteSplit(fs, [], 0);
    assert fs + [] == fs;
  }

  /** A byte stream is the encoding of at most one sequence of frames. */
  lemma StreamIsInjective(d: Dialect, fs: seq<Frame>, gs: seq<Frame>)
    requires AllSendable(d, fs) && AllSendable(d, gs)
    requires Stream(fs) == Stream(gs)
    ensures fs == gs
  {
    var start := Fed([], Stream(fs), true);
    DrainDeliversAll(d, fs, Stream(fs), start);
    DrainDeliversAll(d, gs, Stream(gs), start);
    StreamIsComplete(fs);
    StreamIsComplete(gs);
    assert start.calls == [] && Stream([]) == [];
  }

  /** How many frames have fully arrived before the first read and after each read. */
  function Arrivals(fs: seq<Frame>, chunks: seq<seq<Byte>>): (a: seq<nat>)
    ensures |a| == |chunks| + 1
  {
    if chunks == [] then [0] else Arrivals(fs, chunks[..|chunks| - 1]) + [Complete(fs, |Concat(chunks)|)]
  }

  lemma {:induction false} ArrivalsAre(fs: seq<Frame>, chunks: seq<seq<Byte>>, j: nat)
    requires j <= |chunks|
    ensures Arrivals(fs, chunks)[j] == Complete(fs, |Concat(chunks[..j])|)
  {
    if j == |chunks| {
      assert chunks[..j] == chunks;
    } else {
      ArrivalsAre(fs, chunks[..|chunks| - 1], j);
      assert chunks[..|chunks| - 1][..j] == chunks[..j];
    }
  }

  /** `x` is the least, over all moments, of the count at that moment plus one for each read since. */
  predicate IsLeast(x: int, counts: seq<nat>)
  {
    && (forall j :: 0 <= j < |counts| ==> x <= counts[j] + |counts| - 1 - j)
    && (exists j :: 0 <= j < |counts| && x == counts[j] + |counts| - 1 - j)
  }

  lemma LeastAfterRead(x: int, counts: seq<nat>, y: nat)
    requires IsLeast(x, counts)
    ensures IsLeast(Min(x + 1, y), counts + [y])
  {
    var counts' := counts + [y];
    assert counts'[|counts|] == y;
    var j :| 0 <= j < |counts| && x == counts[j] + |counts| - 1 - j;
    assert counts'[j] == counts[j];
  }

  /** The number of callbacks in closed form. */
  lemma {:induction false} DeliveredCount(d: Dialect, fs: seq<Frame>, chunks: seq<seq<Byte>>)
    requires AllSendable(d, fs) && Concat(chunks) <= Stream(fs)
    ensures IsLeast(|Feed(d, chunks).calls|, Arrivals(fs, chunks))
  {
    if chunks == [] {
      assert Arrivals(fs, chunks)[0] == 0;
    } else {
      var earlier := chunks[..|chunks| - 1];
      EarlierReads(d, fs, chunks);
      DeliveredCount(d, fs, earlier);
      FramingIsCutIndependent(d, fs, chunks);
      LeastAfterRead(|Feed(d, earlier).calls|, Arrivals(fs, earlier), Complete(fs, |Concat(chunks)|));
    }
  }

  /** Looking back from the end over any number of reads, no more frames were completed than there were
      reads. */
  predicate NoBacklog(counts: seq<nat>)
    requires counts != []
  {
    forall j :: 0 <= j < |counts| ==> counts[|counts| - 1] - counts[j] <= |counts| - 1 - j
  }

  lemma LeastIsLast(x: int, counts: seq<nat>)
    requires counts != [] && IsLeast(x, counts)
    ensures x == counts[|counts| - 1] <==> NoBacklog(counts)
  {
    var j :| 0 <= j < |counts| && x == counts[j] + |counts| - 1 - j;
    assert x <= counts[|counts| - 1];
  }

  lemma PrefixByLength(calls: seq<Frame>, fs: seq<Frame>, n: nat)
    requires calls <= fs && n <= |fs|
    ensures calls == fs[..n] <==> |calls| == n
  {
  }

  /** Every frame that has fully arrived has been delivered exactly when there is no backlog. */
  lemma CaughtUpExactlyWhen(d: Dialect, fs: seq<Frame>, chunks: seq<seq<Byte>>)
    requires AllSendable(d, fs) && Concat(chunks) <= Stream(fs)
    ensures Feed(d, chunks).calls == fs[..Complete(fs, |Concat(chunks)|)]
       <==> NoBacklog(Arrivals(fs, chunks))
  {
    var calls, a := Feed(d, chunks).calls, Arrivals(fs, chunks);
    var n := Complete(fs, |Concat(chunks)|);
    assert IsLeast(|calls|, a) by { DeliveredCount(d, fs, chunks); }
    assert calls <= fs by { FramingIsCutIndependent(d, fs, chunks); }
    assert a[|chunks|] == n by {
      ArrivalsAre(fs, chunks, |chunks|);
      assert chunks[..|chunks|] == chunks;
    }
    PrefixByLength(calls, fs, n);
    LeastIsLast(|calls|, a);
  }

  /** One call per read is not enough to deliver everything: frames that arrive together in one read
      stay buffered until further reads, however many there are. */
  lemma OneReadDeliversOneFrame(d: Dialect, fs: seq<Frame>)
    requires AllSendable(d, fs) && fs != []
    ensures Feed(d, [Stream(fs)]).calls == [fs[0]]
    ensures Feed(d, [Stream(fs)]).content == Stream(fs[1..])
  {
    assert Feed(d, []) == Fed([], [], true);
    assert [Stream(fs)][..0] == [];
    assert [] + Stream(fs) == Stream(fs);
    StreamHead(fs);
    EncodeCarries(d, fs[0]);
    ParseWhole(d, fs[0], Encode(fs[0]), Stream(fs[1..]));
  }
}
