/** muduo's Buffer: one array, two moving indices, and the byte sequence between them. */
module NetBuffer {
  import opened Options
  import opened Bytes
  import opened BufferShape
  import opened Endian

  const CR: Byte := 13
  const LF: Byte := 10

  predicate IsCrlfAt(s: seq<Byte>, k: int)
  {
    0 <= k && k + 1 < |s| && s[k] == CR && s[k + 1] == LF
  }

  method CopyIn(a: array<Byte>, at: nat, data: seq<Byte>)
    requires at + |data| <= a.Length
    modifies a
    ensures a[at..at + |data|] == data
    ensures a[..at] == old(a[..at]) && a[at + |data|..] == old(a[at + |data|..])
    ensures forall i :: 0 <= i < at || at + |data| <= i < a.Length ==> a[i] == old(a[i])
  {
    forall i | 0 <= i < |data| {
      a[at + i] := data[i];
    }
  }

  /** Element-by-element copy to an overlapping range that starts earlier. */
  method CopyDown(a: array<Byte>, first: nat, last: nat, dest: nat)
    requires dest <= first <= last <= a.Length
    modifies a
    ensures a[dest..dest + (last - first)] == old(a[first..last])
    ensures forall i :: 0 <= i < dest || dest + (last - first) <= i < a.Length ==> a[i] == old(a[i])
  {
    var k := 0;
    while k < last - first
      invariant k <= last - first
      invariant a[dest..dest + k] == old(a[first..first + k])
      invariant forall i :: 0 <= i < dest || dest + k <= i < a.Length ==> a[i] == old(a[i])
    {
      ghost var copied := a[dest..dest + k];
      a[dest + k] := a[first + k];
      assert a[dest..dest + k] == copied;
      assert a[dest..dest + (k + 1)] == copied + [old(a[first + k])];
      k := k + 1;
    }
  }

  /** A string comes whole through a 32-bit length exactly when it is shorter than 2 GB. */
  lemma PieceIsAll(s: seq<Byte>)
    ensures |s| % 0x1_0000_0000 < 0x8000_0000 && s[..|s| % 0x1_0000_0000] == s <==> |s| < 0x8000_0000
  {
    if |s| < 0x8000_0000 {
      assert |s| % 0x1_0000_0000 == |s|;
    }
  }

  /** Converting the host image of a field and reinterpreting the sign loses nothing. */
  lemma PeekedInt(image: seq<Byte>, w: Width)
    requires |image| == w.Size()
    ensures var u := NetworkToHost(FromLe(image), w);
            u < Pow256(w.Size()) && Fits(Signed(u, w.Size()), w.Size())
            && image == Field(w, Signed(u, w.Size()))
  {
    var u := NetworkToHost(FromLe(image), w);
    HostToNetworkMemory(FromLe(image), w);
    ToLeFromLe(image);
    ToLeFromLe(Reverse(image));
    BigEndianIsReversed(u, w.Size());
    ReverseTwice(image);
    UnsignedSigned(u, w.Size());
  }

  class Buffer {
    var buffer: array<Byte>
    var readerIndex: nat
    var writerIndex: nat

    ghost predicate Valid()
      reads this
    {
      readerIndex <= writerIndex <= buffer.Length && CHEAP_PREPEND <= buffer.Length
    }

    /** The readable bytes: what the buffer means to its users. */
    ghost function Contents(): (s: seq<Byte>)
      requires Valid()
      reads this, buffer
    {
      buffer[readerIndex..writerIndex]
    }

    ghost function ShapeOf(): (sh: Shape)
      requires Valid()
      reads this
      ensures sh.Ok()
    {
      Shape(buffer.Length, readerIndex, writerIndex)
    }

    constructor (initialSize: nat := INITIAL_SIZE)
      ensures Valid() && fresh(buffer)
      ensures Contents() == [] && ShapeOf() == Fresh(initialSize)
      ensures readerIndex == writerIndex == 8 && buffer.Length == 8 + initialSize
    {
      buffer := new Byte[CHEAP_PREPEND + initialSize];
      readerIndex := CHEAP_PREPEND;
      writerIndex := CHEAP_PREPEND;
    }

    method Swap(rhs: Buffer)
      requires Valid() && rhs.Valid()
      modifies this, rhs
      ensures Valid() && rhs.Valid()
      ensures buffer == old(rhs.buffer) && rhs.buffer == old(buffer)
      ensures readerIndex == old(rhs.readerIndex) && rhs.readerIndex == old(readerIndex)
      ensures ShapeOf() == old(rhs.ShapeOf()) && rhs.ShapeOf() == old(ShapeOf())
      ensures Contents() == old(rhs.Contents()) && rhs.Contents() == old(Contents())
    {
      buffer, rhs.buffer := rhs.buffer, buffer;
      readerIndex, rhs.readerIndex := rhs.readerIndex, readerIndex;
      writerIndex, rhs.writerIndex := rhs.writerIndex, writerIndex;
    }

    function ReadableBytes(): (n: nat)
      requires Valid()
      reads this, buffer
      ensures n == |Contents()|
    {
      writerIndex - readerIndex
    }

    function WritableBytes(): (n: nat)
      requires Valid()
      reads this
    {
      buffer.Length - writerIndex
    }

    /** The first CR LF at or after `start` (both as offsets into the content), if any. */
    method FindCrlf(start: nat := 0) returns (at: Option<nat>)
      requires Valid() && start <= |Contents()|
      ensures at.Some? ==> start <= at.value && IsCrlfAt(Contents(), at.value)
      ensures at.Some? ==> forall k :: start <= k < at.value ==> !IsCrlfAt(Contents(), k)
      ensures at.None? ==> forall k :: start <= k ==> !IsCrlfAt(Contents(), k)
    {
      var i := readerIndex + start;
      while i + 1 < writerIndex
        invariant readerIndex + start <= i
        invariant forall k :: start <= k < i - readerIndex ==> !IsCrlfAt(Contents(), k)
      {
        if buffer[i] == CR && buffer[i + 1] == LF {
          return Some(i - readerIndex);
        }
        i := i + 1;
      }
      return None;
    }

    /** The first LF at or after `start`, if any. */
    method FindEol(start: nat := 0) returns (at: Option<nat>)
      requires Valid() && start <= |Contents()|
      ensures at.Some? ==> start <= at.value < |Contents()| && Contents()[at.value] == LF
      ensures at.Some? ==> forall k :: start <= k < at.value ==> Contents()[k] != LF
      ensures at.None? ==> forall k :: start <= k < |Contents()| ==> Contents()[k] != LF
    {
      var i := readerIndex + start;
      while i < writerIndex
        invariant readerIndex + start <= i <= writerIndex
        invariant forall k :: start <= k < i - readerIndex ==> Contents()[k] != LF
      {
        if buffer[i] == LF {
          return Some(i - readerIndex);
        }
        i := i + 1;
      }
      return None;
    }

    method Retrieve(len: nat)
      requires Valid() && len <= |Contents()|
      modifies this
      ensures Valid() && buffer == old(buffer)
      ensures Contents() == old(Contents()[len..])
      ensures ShapeOf() == old(ShapeOf().Retrieve(len))
      ensures len < old(|Contents()|) ==> readerIndex == old(readerIndex) + len && writerIndex == old(writerIndex)
      ensures len == old(|Contents()|) ==> readerIndex == writerIndex == 8
    {
      if len < ReadableBytes() {
        readerIndex := readerIndex + len;
      } else {
        RetrieveAll();
      }
    }

    /** `end` is an offset into the content. */
    method RetrieveUntil(end: nat)
      requires Valid() && end <= |Contents()|
      modifies this
      ensures Valid() && buffer == old(buffer)
      ensures Contents() == old(Contents()[end..])
      ensures ShapeOf() == old(ShapeOf().Retrieve(end))
      ensures end < old(|Contents()|) ==> readerIndex == old(readerIndex) + end && writerIndex == old(writerIndex)
      ensures end == old(|Contents()|) ==> readerIndex == writerIndex == 8
    {
      Retrieve(end);
    }

    method RetrieveAll()
      requires Valid()
      modifies this
      ensures Valid() && buffer == old(buffer)
      ensures Contents() == []
      ensures readerIndex == writerIndex == 8
    {
      readerIndex := CHEAP_PREPEND;
      writerIndex := CHEAP_PREPEND;
    }

    /** The first `n` readable bytes, as read through peek(). */
    method Front(n: nat) returns (image: seq<Byte>)
      requires Valid() && n <= |Contents()|
      ensures image == Contents()[..n]
    {
      image := buffer[readerIndex..readerIndex + n];
      assert forall k :: 0 <= k < n ==> image[k] == buffer[readerIndex + k] == Contents()[k];
    }

    method RetrieveAsString(len: nat) returns (result: seq<Byte>)
      requires Valid() && len <= |Contents()|
      modifies this
      ensures Valid() && buffer == old(buffer)
      ensures result + Contents() == old(Contents()) && |result| == len
      ensures ShapeOf() == old(ShapeOf().Retrieve(len))
      ensures len == old(|Contents()|) ==> readerIndex == writerIndex == 8
    {
      result := Front(len);
      Retrieve(len);
    }

    method Append(data: seq<Byte>)
      requires Valid()
      modifies this, buffer
      ensures Valid() && (buffer == old(buffer) || fresh(buffer))
      ensures Contents() == old(Contents()) + data
      ensures writerIndex - readerIndex == old(writerIndex - readerIndex) + |data|
      ensures ShapeOf() == old(Apply(ShapeOf(), BufferShape.Append(|data|)))
    {
      EnsureWritableBytes(|data|);
      CopyIn(buffer, writerIndex, data);
      HasWritten(|data|);
    }

    method EnsureWritableBytes(len: nat)
      requires Valid()
      modifies this, buffer
      ensures Valid() && (buffer == old(buffer) || fresh(buffer))
      ensures Contents() == old(Contents()) && WritableBytes() >= len
      ensures ShapeOf() == old(ShapeOf().EnsureWritable(len))
      ensures old(WritableBytes()) >= len ==>
                buffer == old(buffer) && readerIndex == old(readerIndex) && writerIndex == old(writerIndex)
      ensures old(WritableBytes()) < len && old(WritableBytes()) + old(readerIndex) < len + 8 ==>
                buffer.Length == old(writerIndex) + len && readerIndex == old(readerIndex) && writerIndex == old(writerIndex)
      ensures old(WritableBytes()) < len && old(WritableBytes()) + old(readerIndex) >= len + 8 ==>
                buffer == old(buffer) && readerIndex == 8 && writerIndex == 8 + old(|Contents()|)
    {
      if WritableBytes() < len {
        MakeSpace(len);
      }
    }

    /** The bytes just written behind the content become part of it. */
    method HasWritten(len: nat)
      requires Valid() && len <= WritableBytes()
      modifies this
      ensures Valid() && buffer == old(buffer)
      ensures Contents() == old(Contents() + buffer[writerIndex..writerIndex + len])
      ensures readerIndex == old(readerIndex) && writerIndex == old(writerIndex) + len
      ensures ShapeOf() == old(Apply(ShapeOf(), BufferShape.HasWritten(len)))
    {
      writerIndex := writerIndex + len;
    }

    method Unwrite(len: nat)
      requires Valid() && len <= |Contents()|
      modifies this
      ensures Valid() && buffer == old(buffer)
      ensures Contents() == old(Contents()[..|Contents()| - len])
      ensures readerIndex == old(readerIndex) && writerIndex == old(writerIndex) - len
      ensures ShapeOf() == old(Apply(ShapeOf(), BufferShape.Unwrite(len)))
    {
      writerIndex := writerIndex - len;
    }

    method Prepend(data: seq<Byte>)
      requires Valid() && |data| <= readerIndex
      modifies this, buffer
      ensures Valid() && buffer == old(buffer)
      ensures Contents() == data + old(Contents())
      ensures readerIndex == old(readerIndex) - |data| && writerIndex == old(writerIndex)
      ensures ShapeOf() == old(Apply(ShapeOf(), BufferShape.Prepend(|data|)))
    {
      readerIndex := readerIndex - |data|;
      CopyIn(buffer, readerIndex, data);
      assert Contents() == buffer[readerIndex..readerIndex + |data|] + buffer[readerIndex + |data|..writerIndex];
    }

    /** Appends a signed integer in network byte order. */
    method AppendInt(w: Width, x: int)
      requires Valid() && Fits(x, w.Size())
      modifies this, buffer
      ensures Valid() && (buffer == old(buffer) || fresh(buffer))
      ensures Contents() == old(Contents()) + Field(w, x)
      ensures ShapeOf() == old(Apply(ShapeOf(), BufferShape.Append(w.Size())))
    {
      SignedUnsigned(x, w.Size());
      var be := HostToNetwork(Unsigned(x, w.Size()), w);
      HostToNetworkMemory(Unsigned(x, w.Size()), w);
      Append(ToLe(be, w.Size()));
    }

    /** Reads the integer at the front of the content, leaving it there. */
    method PeekInt(w: Width) returns (x: int)
      requires Valid() && w.Size() <= |Contents()|
      ensures Fits(x, w.Size())
      ensures Contents()[..w.Size()] == Field(w, x)
    {
      var image := Front(w.Size());
      var host := NetworkToHost(FromLe(image), w);
      x := Signed(host, w.Size());
      PeekedInt(image, w);
    }

    method ReadInt(w: Width) returns (x: int)
      requires Valid() && w.Size() <= |Contents()|
      modifies this
      ensures Valid() && buffer == old(buffer)
      ensures Fits(x, w.Size())
      ensures old(Contents()) == Field(w, x) + Contents()
      ensures ShapeOf() == old(ShapeOf().Retrieve(w.Size()))
    {
      x := PeekInt(w);
      ghost var before := Contents();
      assert before == before[..w.Size()] + before[w.Size()..];
      Retrieve(w.Size());
    }

    method PrependInt(w: Width, x: int)
      requires Valid() && Fits(x, w.Size()) && w.Size() <= readerIndex
      modifies this, buffer
      ensures Valid() && buffer == old(buffer)
      ensures Contents() == Field(w, x) + old(Contents())
      ensures ShapeOf() == old(Apply(ShapeOf(), BufferShape.Prepend(w.Size())))
    {
      SignedUnsigned(x, w.Size());
      var be := HostToNetwork(Unsigned(x, w.Size()), w);
      HostToNetworkMemory(Unsigned(x, w.Size()), w);
      Prepend(ToLe(be, w.Size()));
    }

    /** Replaces the storage by one just large enough for the content and `reserve` more bytes. The content
        passes through a StringPiece, whose length is an int: if that comes out negative, the append that
        follows fails, and otherwise it is the number of bytes that are kept. */
    method Shrink(reserve: nat) returns (ok: bool)
      requires Valid()
      modifies this
      ensures Valid()
      ensures ok <==> old(|Contents()|) % 0x1_0000_0000 < 0x8000_0000
      ensures ok ==> fresh(buffer) && WritableBytes() >= reserve
      ensures ok ==> Contents() == old(Contents()[..|Contents()| % 0x1_0000_0000])
      ensures ok ==> buffer.Length == Max(1032, 8 + old(|Contents()|) + reserve)
      ensures ok && Contents() == old(Contents()) <==> old(|Contents()|) < 0x8000_0000
      ensures !ok ==> buffer == old(buffer) && ShapeOf() == old(ShapeOf()) && Contents() == old(Contents())
    {
      PieceIsAll(Contents());
      var other := new Buffer();
      other.EnsureWritableBytes(ReadableBytes() + reserve);
      var piece := ReadableBytes() % 0x1_0000_0000;
      if piece >= 0x8000_0000 {
        return false;
      }
      var kept := Front(piece);
      other.Append(kept);
      assert other.Contents() == kept && |kept| == piece;
      Swap(other);
      return true;
    }

    method MakeSpace(len: nat)
      requires Valid() && WritableBytes() < len
      modifies this, buffer
      ensures Valid() && (buffer == old(buffer) || fresh(buffer))
      ensures Contents() == old(Contents()) && WritableBytes() >= len
      ensures ShapeOf() == old(ShapeOf().EnsureWritable(len))
      ensures old(WritableBytes()) + old(readerIndex) < len + 8 ==>
                buffer.Length == old(writerIndex) + len && readerIndex == old(readerIndex) && writerIndex == old(writerIndex)
      ensures old(WritableBytes()) + old(readerIndex) >= len + 8 ==>
                buffer == old(buffer) && readerIndex == 8 && writerIndex == 8 + old(|Contents()|)
    {
      if WritableBytes() + readerIndex < len + CHEAP_PREPEND {
        var grown := new Byte[writerIndex + len](_ => 0);
        forall i | 0 <= i < writerIndex {
          grown[i] := buffer[i];
        }
        buffer := grown;
      } else {
        assert CHEAP_PREPEND < readerIndex;
        var readable := ReadableBytes();
        CopyDown(buffer, readerIndex, writerIndex, CHEAP_PREPEND);
        readerIndex := CHEAP_PREPEND;
        writerIndex := readerIndex + readable;
      }
    }
  }
}
