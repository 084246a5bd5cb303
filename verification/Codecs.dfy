/** The two codecs: each call of onMessage consumes at most one frame from the connection's buffer. */
module Codecs {
  import opened Options
  import opened Bytes
  import opened Endian
  import opened Framing
  import opened GuestServerClasses
  import opened GuestStore
  import opened NetBuffer
  import opened QueryReply

  /** Reads an int32 at the front of the content, without conversion. */
  method PeekHostInt(buf: Buffer) returns (x: int)
    requires buf.Valid() && |buf.Contents()| >= HEADER
    ensures x == Host32(buf.Contents()[..4])
  {
    var image := buf.Front(HEADER);
    x := Signed(FromLe(image), 4);
  }

  lemma FlagIsConverted(image: seq<Byte>)
    requires |image| == 4
    ensures NetworkToHost(FromLe(image), W32) == Flag(image)
  {
    ToBeFromBe(image);
    NetworkToHostReads(FromBe(image), W32);
  }

  method PeekFlag(buf: Buffer) returns (flag: nat)
    requires buf.Valid() && |buf.Contents()| >= HEADER
    ensures flag == Flag(buf.Contents()[..4])
  {
    var image := buf.Front(HEADER);
    flag := NetworkToHost(FromLe(image), W32);
    FlagIsConverted(image);
  }

  /** `n` bytes copied from the front of the content into a block of their own, then consumed. */
  method TakePayload(buf: Buffer, n: nat) returns (data: seq<Byte>)
    requires buf.Valid() && n <= |buf.Contents()|
    modifies buf
    ensures buf.Valid() && buf.buffer == old(buf.buffer)
    ensures data == old(buf.Contents()[..n]) && buf.Contents() == old(buf.Contents()[n..])
  {
    data := buf.Front(n);
    buf.Retrieve(n);
  }

  lemma HeaderConsumed(content: seq<Byte>)
    requires |content| >= 8
    ensures content[4..][..4] == content[4..8] && content[4..][4..] == content[8..]
  {
  }

  /** Consumes the length field, already read, and the flag field. */
  method TakeFlag(buf: Buffer) returns (flag: nat)
    requires buf.Valid() && |buf.Contents()| >= 8
    modifies buf
    ensures buf.Valid() && buf.buffer == old(buf.buffer)
    ensures flag == old(Flag(buf.Contents()[4..8])) && buf.Contents() == old(buf.Contents()[8..])
  {
    HeaderConsumed(buf.Contents());
    buf.Retrieve(HEADER);
    flag := PeekFlag(buf);
    buf.Retrieve(HEADER);
  }

  lemma AfterHeader(content: seq<Byte>, header: nat, len: nat)
    requires header <= len <= |content|
    ensures content[header..][..len - header] == content[header..len]
    ensures content[header..][len - header..] == content[len..]
  {
  }

  /** Consumes the id field and the payload of a frame of `len` bytes whose length and flag are gone. */
  method TakeIdAndPayload(buf: Buffer, len: nat) returns (id: int, data: seq<Byte>)
    requires buf.Valid() && 12 <= len <= |buf.Contents()| + 8
    modifies buf
    ensures buf.Valid() && buf.buffer == old(buf.buffer)
    ensures id == old(Host32(buf.Contents()[..4])) && data == old(buf.Contents()[4..len - 8])
    ensures buf.Contents() == old(buf.Contents()[len - 8..])
  {
    id := PeekHostInt(buf);
    ghost var content := buf.Contents();
    AfterHeader(content, 4, len - 8);
    buf.Retrieve(HEADER);
    data := TakePayload(buf, len - 3 * HEADER);
  }

  lemma HostFieldFits(s: seq<Byte>)
    requires |s| == 4
    ensures Host32(s) < 0x8000_0000
  {
    Pow256Values();
    ToLeFromLe(s);
  }

  /** The id and payload of a frame, seen from behind its first eight bytes. */
  lemma BehindFlag(content: seq<Byte>, len: nat)
    requires 12 <= len <= |content|
    ensures content[8..][..4] == content[8..12] && content[8..][4..len - 8] == content[12..len]
    ensures content[8..][len - 8..] == content[len..]
  {
  }

  /** What `send` puts on the wire: the length, not counting itself, in network order, then the message. */
  function Sent(message: seq<Byte>): (wire: seq<Byte>)
    ensures |wire| == |message| + 4
  {
    ToBe(|message|, 4) + message
  }

  method Send(message: seq<Byte>) returns (wire: seq<Byte>)
    ensures wire == Sent(message)
  {
    var buf := new Buffer();
    buf.Append(message);
    assert buf.readerIndex == 8 && buf.Contents() == message;
    var be32 := HostToNetwork(|message|, W32);
    HostToNetworkMemory(|message|, W32);
    assert ToLe(be32, 4) == ToBe(|message|, 4);
    buf.Prepend(ToLe(be32, 4));
    assert buf.Contents() == Sent(message);
    wire := buf.Front(buf.ReadableBytes());
  }

  /** A receiver that reads the length in network order recovers the message; `onMessage` is not one. */
  lemma SendIsReadable(message: seq<Byte>, tail: seq<Byte>)
    requires |message| < 0x1_0000_0000
    ensures var wire, n := Sent(message) + tail, FromBe((Sent(message) + tail)[..4]);
            n == |message| && wire[4..4 + n] == message && wire[4 + n..] == tail
  {
    var head := ToBe(|message|, 4);
    assert FromBe(head) == |message| by {
      Pow256Values();
      FromBeToBe(|message|, 4);
    }
    Slices(head, message, tail);
  }

  /** The length that onMessage reads from what `send` wrote: the true one with its bytes exchanged. */
  lemma SentLength(message: seq<Byte>)
    requires |message| < 0x8000_0000
    ensures HostToNetwork(|message|, W32) < 0x1_0000_0000
    ensures Host32(Sent(message)[..4]) == Signed(HostToNetwork(|message|, W32), 4)
    ensures AsSizeT(Host32(Sent(message)[..4])) <= |message| + 4 <==> HostToNetwork(|message|, W32) <= |message| + 4
    ensures HostToNetwork(|message|, W32) <= |message| + 4 ==>
              Host32(Sent(message)[..4]) == HostToNetwork(|message|, W32)
  {
    var n := |message|;
    HostToNetworkMemory(n, W32);
    FromLeToLe(HostToNetwork(n, W32), 4);
    Pow256Values();
    assert Sent(message)[..4] == ToLe(HostToNetwork(n, W32), 4);
    if n >= 0x7fff_fffc {
      SwapOf32(n % 256, 255, 255, 127);
    }
  }

  /** onMessage waits for more bytes after what `send` writes exactly when the message is empty or its
      length, with its bytes exchanged, is more than what was sent. */
  lemma SendIsWaitedOnExactlyWhen(d: Dialect, message: seq<Byte>)
    requires |message| < 0x8000_0000
    ensures Parse(d, Sent(message)) == Wait <==> |message| == 0 || HostToNetwork(|message|, W32) > |message| + 4
  {
    SentLength(message);
  }

  /** The least length that onMessage can make a frame of, for a flag that the codec knows; for `qury` it
      does not look at the length but needs twelve bytes. */
  predicate FrameFits(d: Dialect, flag: nat, length: nat, total: nat)
  {
    if d.CompareServer? then (flag == COMP && length >= 8) || ((flag == ADDF || flag == ADDG) && length >= 12)
    else (flag == APPL && length >= 12) || (flag == QURY && total >= 12)
  }

  lemma ShortIsNotDelivered(n: nat)
    requires 0 < n < 4
    ensures HostToNetwork(n, W32) > n + 4
  {
    SwapOf32(n, 0, 0, 0);
  }

  /** onMessage makes a frame of what `send` wrote exactly when the byte-swapped length is at most what was
      sent and the message itself starts with the flag of a frame that this length has room for. */
  lemma SendIsDeliveredExactlyWhen(d: Dialect, message: seq<Byte>)
    requires |message| < 0x8000_0000
    ensures Parse(d, Sent(message)).Callback? <==>
              && 4 <= |message| && HostToNetwork(|message|, W32) <= |message| + 4
              && FrameFits(d, Flag(message[..4]), HostToNetwork(|message|, W32), |message| + 4)
  {
    SentLength(message);
    if 0 < |message| < 4 {
      ShortIsNotDelivered(|message|);
    } else if |message| >= 4 {
      assert Sent(message)[4..8] == message[..4];
    }
  }

  /** No length is four less than itself with the bytes exchanged. */
  lemma NeverExact(n: nat)
    requires n < 0x8000_0000
    ensures HostToNetwork(n, W32) != n + 4
  {
    Pow256Values();
    var a, b, c, e := FourBytes(n);
    SwapOf32(a, b, c, e);
    var i: int, j: int, k: int, l: int := a, b, c, e;
    assert HostToNetwork(n, W32) - n == 255 * (0x1_0101 * (i - l) + 0x100 * (j - k));
  }

  /** For every message: onMessage never takes what `send` wrote for one frame. Either it makes no
      callback, or it leaves some of the bytes in the buffer to be taken for the next frame. */
  lemma SendIsNeverOneFrame(d: Dialect, message: seq<Byte>)
    requires |message| < 0x8000_0000
    ensures var outcome := Parse(d, Sent(message)); outcome.Callback? ==> outcome.rest != []
  {
    var n := |message|;
    SentLength(message);
    NeverExact(n);
    if n == 8 {
      SwapOf32(8, 0, 0, 0);
    }
  }

  /** The reply "ok" as `send` would frame it: onMessage waits for 32 MB that never come. */
  lemma SendIsNotAccepted(d: Dialect)
    ensures Parse(d, Sent(OK)) == Wait
  {
    SwapOf32(2, 0, 0, 0);
    SendIsWaitedOnExactlyWhen(d, OK);
  }

  /** It does happen that a part of what `send` wrote is delivered: a message of 65792 bytes that starts
      with the flag `comp` loses its last four bytes, which stay in the buffer. */
  lemma SendIsDeliveredInPart(message: seq<Byte>)
    requires |message| == 0x1_0100 && message[..4] == ToBe(COMP, 4)
    ensures Parse(CompareServer, Sent(message)) == Callback(Comp(message[4..|message| - 4]), message[|message| - 4..])
  {
    SentLength(message);
    SwapOf32(0, 1, 1, 0);
    FromBeToBe(COMP, 4) by { Pow256Values(); }
    var wire := Sent(message);
    assert wire[4..8] == message[..4];
    assert wire[8..0x1_0100] == message[4..|message| - 4] && wire[0x1_0100..] == message[|message| - 4..];
  }

  class CompareCodec {

    constructor () {}

    /** Returns the callback made, if any. Frames that would be read out of bounds are excluded. */
    method OnMessage(buf: Buffer) returns (call: Option<Frame>)
      requires buf.Valid() && Parse(CompareServer, buf.Contents()) != OutOfBounds
      modifies buf
      ensures buf.Valid() && buf.buffer == old(buf.buffer)
      ensures match old(Parse(CompareServer, buf.Contents()))
              case Wait => call == None && buf.Contents() == old(buf.Contents())
              case Callback(f, rest) => call == Some(f) && buf.Contents() == rest
              case Discard(rest) => call == None && buf.Contents() == rest
              case OutOfBounds => false
    {
      call := None;
      ghost var content := buf.Contents();
      if buf.ReadableBytes() > HEADER {
        var len := PeekHostInt(buf);
        if AsSizeT(len) <= buf.ReadableBytes() {
          var flag := TakeFlag(buf);
          if flag == COMP {
            AfterHeader(content, 8, len);
            var data := TakePayload(buf, len - 2 * HEADER);
            call := Some(Comp(data));
          } else if flag == ADDF {
            BehindFlag(content, len);
            var id, data := TakeIdAndPayload(buf, len);
            call := Some(Addf(id, data));
          } else if flag == ADDG {
            BehindFlag(content, len);
            var id, data := TakeIdAndPayload(buf, len);
            call := Some(Addg(id, data));
          }
        }
      }
    }
  }

  class GuestCodec {
    const server: GuestServer

    constructor (server: GuestServer)
      ensures this.server == server
    {
      this.server := server;
    }

    /** The codec copies the picture of an `appl` frame into a fresh block and hands that to the server;
        `addNow` and `sweepNow` are the two clock readings the server makes. */
    method OnMessage(buf: Buffer, addNow: nat, sweepNow: nat) returns (reply: seq<Byte>)
      requires buf.Valid() && server.Valid()
      requires Parse(Dialect.GuestServer, buf.Contents()) != OutOfBounds
      modifies buf, server, server.heap, server.lock
      ensures buf.Valid() && server.Valid() && buf.buffer == old(buf.buffer)
      ensures var outcome := old(Parse(Dialect.GuestServer, buf.Contents()));
              && (outcome.Wait? ==> buf.Contents() == old(buf.Contents()))
              && (!outcome.Wait? ==> buf.Contents() == outcome.rest)
              && (outcome.Callback? && outcome.frame.Appl? ==>
                    reply == OK && server.State() == old(Handle(server.State(),
                      Add(outcome.frame.id, outcome.frame.payload, addNow, sweepNow))))
              && (outcome.Callback? && outcome.frame.Qury? ==>
                    reply == old(Answer(View(server.State()), outcome.frame.id))
                    && server.State() == old(server.State()))
              && (!outcome.Callback? ==> reply == [] && server.State() == old(server.State()))
    {
      reply := [];
      ghost var content := buf.Contents();
      if buf.ReadableBytes() > HEADER {
        var len := PeekHostInt(buf);
        if AsSizeT(len) <= buf.ReadableBytes() {
          var flag := TakeFlag(buf);
          HostFieldFits(content[..4]);
          if flag == APPL {
            reply := OnAppl(buf, len, addNow, sweepNow, content);
          } else if flag == QURY {
            reply := OnQury(buf, content);
          }
        }
      }
    }

    method OnAppl(buf: Buffer, len: nat, addNow: nat, sweepNow: nat, ghost content: seq<Byte>)
      returns (reply: seq<Byte>)
      requires buf.Valid() && server.Valid()
      requires 12 <= len <= |content| && len < 0x8000_0000 && buf.Contents() == content[8..]
      modifies buf, server, server.heap, server.lock
      ensures buf.Valid() && server.Valid() && buf.buffer == old(buf.buffer)
      ensures buf.Contents() == content[len..] && reply == OK
      ensures server.State()
           == old(Handle(server.State(), Add(Host32(content[8..12]), content[12..len], addNow, sweepNow)))
    {
      BehindFlag(content, len);
      var id, image := TakeIdAndPayload(buf, len);
      ghost var before := server.State();
      var data := server.heap.Malloc(image);
      reply := server.OnStringMessageAdd(data, |image|, id, addNow, sweepNow, before, image);
    }

    method OnQury(buf: Buffer, ghost content: seq<Byte>) returns (reply: seq<Byte>)
      requires buf.Valid() && server.Valid()
      requires 12 <= |content| && buf.Contents() == content[8..]
      modifies buf, server.lock
      ensures buf.Valid() && server.Valid() && buf.buffer == old(buf.buffer)
      ensures buf.Contents() == content[12..]
      ensures server.State() == old(server.State())
      ensures reply == Answer(View(server.State()), Host32(content[8..12]))
    {
      BehindFlag(content, 12);
      var id := PeekHostInt(buf);
      buf.Retrieve(HEADER);
      reply := server.OnStringMessageQuery(id);
    }
  }
}
