/** What travels over the connections, byte by byte: the frames that the codecs accept, the replies they are
    answered with, and what `send` writes. */
module WireFormat {
  import opened Bytes
  import opened Codecs
  import opened Endian
  import opened Framing
  import opened GuestStore
  import opened QueryReply

  // ----- integers -----

  /** The host stores a 32-bit integer least significant byte first. */
  lemma HostBytes(a: Byte, b: Byte, c: Byte, d: Byte)
    ensures ToLe(a + 0x100 * b + 0x1_0000 * c + 0x100_0000 * d, 4) == [a, b, c, d]
  {
    FromLeOf4(a, b, c, d);
    ToLeFromLe([a, b, c, d]);
  }

  /** The network carries it most significant byte first. */
  lemma NetworkBytes(a: Byte, b: Byte, c: Byte, d: Byte)
    ensures ToBe(0x100_0000 * a + 0x1_0000 * b + 0x100 * c + d, 4) == [a, b, c, d]
  {
    HostBytes(d, c, b, a);
    BigEndianIsReversed(0x100_0000 * a + 0x1_0000 * b + 0x100 * c + d, 4);
  }

  lemma {:induction false} ZeroBytes(n: nat)
    ensures ToBe(0, n) == seq(n, _ => 0)
  {
    if n > 0 {
      ZeroBytes(n - 1);
    }
  }

  /** Fields of each width, the negative ones in two's complement. */
  lemma FieldOf8()
    ensures Fits(-2, 1) && Field(W8, -2) == [0xfe]
  {
    Pow256Values();
    ZeroBytes(0);
    assert ToBe(0xfe, 1) == ToBe(0, 0) + [0xfe];
  }

  lemma FieldOf16()
    ensures Fits(-2, 2) && Field(W16, -2) == [0xff, 0xfe]
  {
    Pow256Values();
    ZeroBytes(0);
    assert ToBe(0xff, 1) == ToBe(0, 0) + [0xff];
    assert ToBe(0xfffe, 2) == ToBe(0xff, 1) + [0xfe];
  }

  lemma FieldOf32()
    ensures Fits(-2, 4) && Field(W32, -2) == [0xff, 0xff, 0xff, 0xfe]
  {
    Pow256Values();
    NetworkBytes(0xff, 0xff, 0xff, 0xfe);
  }

  lemma FieldOf64()
    ensures Fits(0x102, 8) && Field(W64, 0x102) == [0, 0, 0, 0, 0, 0, 1, 2]
  {
    Pow256Values();
    ZeroBytes(6);
    assert ToBe(0x102, 8) == ToBe(1, 7) + [2] && ToBe(1, 7) == ToBe(0, 6) + [1];
  }

  /** The id field of a frame. */
  function IdBytes(id: int): (s: seq<Byte>)
    requires -0x8000_0000 <= id < 0x8000_0000
    ensures |s| == 4
  {
    ToLe(if id < 0 then id + 0x1_0000_0000 else id, 4)
  }

  // ----- the frames -----

  const COMP_BYTES: seq<Byte> := [0x63, 0x6f, 0x6d, 0x70]
  const ADDF_BYTES: seq<Byte> := [0x61, 0x64, 0x64, 0x66]
  const ADDG_BYTES: seq<Byte> := [0x61, 0x64, 0x64, 0x67]
  const APPL_BYTES: seq<Byte> := [0x61, 0x70, 0x70, 0x6c]
  const QURY_BYTES: seq<Byte> := [0x71, 0x75, 0x72, 0x79]

  lemma FlagsAreBytes()
    ensures ToBe(COMP, 4) == COMP_BYTES && ToBe(ADDF, 4) == ADDF_BYTES && ToBe(ADDG, 4) == ADDG_BYTES
    ensures ToBe(APPL, 4) == APPL_BYTES && ToBe(QURY, 4) == QURY_BYTES
  {
    NetworkBytes(0x63, 0x6f, 0x6d, 0x70);
    NetworkBytes(0x61, 0x64, 0x64, 0x66);
    NetworkBytes(0x61, 0x64, 0x64, 0x67);
    NetworkBytes(0x61, 0x70, 0x70, 0x6c);
    NetworkBytes(0x71, 0x75, 0x72, 0x79);
  }

  /** A flag field has the value of a known flag exactly when it has that flag's bytes. */
  lemma FlagIs(s: seq<Byte>, flag: nat, bytes: seq<Byte>)
    requires |s| == 4 && flag < 0x1_0000_0000 && ToBe(flag, 4) == bytes
    ensures Flag(s) == flag <==> s == bytes
  {
    Pow256Values();
    ToBeFromBe(s);
    FromBeToBe(flag, 4);
  }

  lemma KnownFlags(s: seq<Byte>)
    requires |s| == 4
    ensures Flag(s) == COMP <==> s == COMP_BYTES
    ensures Flag(s) == ADDF <==> s == ADDF_BYTES
    ensures Flag(s) == ADDG <==> s == ADDG_BYTES
    ensures Flag(s) == APPL <==> s == APPL_BYTES
    ensures Flag(s) == QURY <==> s == QURY_BYTES
  {
    FlagsAreBytes();
    FlagIs(s, COMP, COMP_BYTES);
    FlagIs(s, ADDF, ADDF_BYTES);
    FlagIs(s, ADDG, ADDG_BYTES);
    FlagIs(s, APPL, APPL_BYTES);
    FlagIs(s, QURY, QURY_BYTES);
  }

  lemma FrameWithoutId(payload: seq<Byte>, flag: seq<Byte>, rest: seq<Byte>)
    requires |payload| + 8 < 0x8000_0000 && ToBe(COMP, 4) == flag
    ensures Parse(CompareServer, ToLe(8 + |payload|, 4) + flag + payload + rest) == Callback(Comp(payload), rest)
  {
    var f := Comp(payload);
    EncodeCarries(CompareServer, f);
    ParseWhole(CompareServer, f, Encode(f), rest);
    assert Encode(f) == ToLe(8 + |payload|, 4) + flag + [] + payload;
    assert ToLe(8 + |payload|, 4) + flag + [] == ToLe(8 + |payload|, 4) + flag;
  }

  lemma CompFrame(payload: seq<Byte>, rest: seq<Byte>)
    requires |payload| + 8 < 0x8000_0000
    ensures Parse(CompareServer, ToLe(8 + |payload|, 4) + [0x63, 0x6f, 0x6d, 0x70] + payload + rest)
         == Callback(Comp(payload), rest)
  {
    FlagsAreBytes();
    FrameWithoutId(payload, COMP_BYTES, rest);
  }

  lemma FrameWithId(d: Dialect, f: Frame, flag: seq<Byte>, rest: seq<Byte>)
    requires Sendable(d, f) && (f.Addf? || f.Addg? || f.Appl?) && ToBe(FlagOf(f), 4) == flag
    ensures -0x8000_0000 <= f.id < 0x8000_0000
    ensures Parse(d, ToLe(12 + |f.payload|, 4) + flag + IdBytes(f.id) + f.payload + rest) == Callback(f, rest)
  {
    Pow256Values();
    EncodeCarries(d, f);
    ParseWhole(d, f, Encode(f), rest);
    assert Encode(f) == ToLe(12 + |f.payload|, 4) + flag + IdBytes(f.id) + f.payload;
  }

  lemma AddfFrame(id: int, payload: seq<Byte>, rest: seq<Byte>)
    requires -0x8000_0000 <= id < 0x8000_0000 && |payload| + 12 < 0x8000_0000
    ensures Parse(CompareServer, ToLe(12 + |payload|, 4) + [0x61, 0x64, 0x64, 0x66] + IdBytes(id) + payload + rest)
         == Callback(Addf(id, payload), rest)
  {
    Pow256Values();
    FlagsAreBytes();
    FrameWithId(CompareServer, Addf(id, payload), ADDF_BYTES, rest);
  }

  lemma AddgFrame(id: int, payload: seq<Byte>, rest: seq<Byte>)
    requires -0x8000_0000 <= id < 0x8000_0000 && |payload| + 12 < 0x8000_0000
    ensures Parse(CompareServer, ToLe(12 + |payload|, 4) + [0x61, 0x64, 0x64, 0x67] + IdBytes(id) + payload + rest)
         == Callback(Addg(id, payload), rest)
  {
    Pow256Values();
    FlagsAreBytes();
    FrameWithId(CompareServer, Addg(id, payload), ADDG_BYTES, rest);
  }

  lemma ApplFrame(id: int, payload: seq<Byte>, rest: seq<Byte>)
    requires -0x8000_0000 <= id < 0x8000_0000 && |payload| + 12 < 0x8000_0000
    ensures Parse(GuestServer, ToLe(12 + |payload|, 4) + [0x61, 0x70, 0x70, 0x6c] + IdBytes(id) + payload + rest)
         == Callback(Appl(id, payload), rest)
  {
    Pow256Values();
    FlagsAreBytes();
    FrameWithId(GuestServer, Appl(id, payload), APPL_BYTES, rest);
  }

  lemma Header(head: seq<Byte>, flag: seq<Byte>, tail: seq<Byte>)
    requires |head| == 4 && |flag| == 4
    ensures var content := head + flag + tail;
            content[..4] == head && content[4..8] == flag && content[8..] == tail
  {
  }

  /** For a query the length field only has to be there and at most the number of bytes received: twelve
      bytes are consumed whatever it says. */
  lemma QuryFrame(head: seq<Byte>, id: int, rest: seq<Byte>)
    requires |head| == 4 && 0 <= Host32(head) <= 12 + |rest|
    requires -0x8000_0000 <= id < 0x8000_0000
    ensures Parse(GuestServer, head + [0x71, 0x75, 0x72, 0x79] + (IdBytes(id) + rest)) == Callback(Qury(id), rest)
  {
    var tail := IdBytes(id) + rest;
    var content := head + QURY_BYTES + tail;
    Header(head, QURY_BYTES, tail);
    KnownFlags(QURY_BYTES);
    Pow256Values();
    HostFieldReadsBack(id);
    assert content[8..12] == IdBytes(id) && content[12..] == rest;
  }

  // ----- everything else -----

  /** Four bytes or fewer, or fewer than the length says, are left alone. */
  lemma TooFewBytesWait(d: Dialect, content: seq<Byte>)
    requires |content| <= 4 || Host32(content[..4]) > |content|
    ensures Parse(d, content) == Wait
  {
  }

  /** A frame with a flag of another codec or of none loses its first eight bytes, and nothing else. */
  lemma UnknownFlagIsDiscarded(d: Dialect, head: seq<Byte>, flag: seq<Byte>, tail: seq<Byte>)
    requires |head| == 4 && |flag| == 4 && 0 <= Host32(head) <= 8 + |tail|
    requires d.CompareServer? ==> flag != COMP_BYTES && flag != ADDF_BYTES && flag != ADDG_BYTES
    requires d.GuestServer? ==> flag != APPL_BYTES && flag != QURY_BYTES
    ensures Parse(d, head + flag + tail) == Discard(tail)
  {
    Header(head, flag, tail);
    KnownFlags(flag);
  }

  /** A frame makes the codec read beyond the bytes received exactly when its length has no room for its own
      header, or, for a query, when the id has not arrived. */
  lemma ReadsBeyondExactlyWhen(d: Dialect, head: seq<Byte>, flag: seq<Byte>, tail: seq<Byte>)
    requires |head| == 4 && |flag| == 4 && 0 <= Host32(head) <= 8 + |tail|
    ensures Parse(d, head + flag + tail) == OutOfBounds <==>
              if d.CompareServer? then
                (flag == COMP_BYTES && Host32(head) < 8)
                || ((flag == ADDF_BYTES || flag == ADDG_BYTES) && Host32(head) < 12)
              else (flag == APPL_BYTES && Host32(head) < 12) || (flag == QURY_BYTES && |tail| < 4)
  {
    Header(head, flag, tail);
    KnownFlags(flag);
  }

  // ----- what the servers send -----

  /** "ok" and "empty". */
  lemma ReplyTexts()
    ensures |OK| == 2 && forall i :: 0 <= i < 2 ==> OK[i] == "ok"[i] as int
    ensures |EMPTY| == 5 && forall i :: 0 <= i < 5 ==> EMPTY[i] == "empty"[i] as int
  {
  }

  /** A reply frame: the length, itself included, least significant byte first, then the picture. */
  lemma OnePictureReply(a: Byte, b: Byte, c: Byte, d: Byte, picture: seq<Byte>)
    requires |picture| + 4 == a + 0x100 * b + 0x1_0000 * c + 0x100_0000 * d
    ensures Reply([picture]) == [a, b, c, d] + picture
  {
    HostBytes(a, b, c, d);
    var ps := [picture];
    assert ps[..0] == [] && Reply(ps) == Reply(ps[..0]) + ReplyFrame(picture);
  }

  /** `send`: the length, itself not included, most significant byte first, then the message. */
  lemma SentBytes(a: Byte, b: Byte, c: Byte, d: Byte, message: seq<Byte>)
    requires |message| == 0x100_0000 * a + 0x1_0000 * b + 0x100 * c + d
    ensures Sent(message) == [a, b, c, d] + message
  {
    NetworkBytes(a, b, c, d);
  }
}
