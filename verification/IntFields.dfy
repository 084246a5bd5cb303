/** Histories of typed appends and reads on one buffer: integers come back in order and intact. */
module IntFields {
  import opened Bytes
  import opened Endian
  import opened NetBuffer

  datatype TypedInt = TypedInt(w: Width, x: int) {
    predicate Ok() { Fits(x, w.Size()) }
  }

  /** An append of a value, or a read of a given width together with the value it returned. */
  datatype IntOp = Put(v: TypedInt) | Get(v: TypedInt)

  predicate AllOk(vs: seq<TypedInt>)
  {
    forall i :: 0 <= i < |vs| ==> vs[i].Ok()
  }

  function Encode(vs: seq<TypedInt>): seq<Byte>
    requires AllOk(vs)
  {
    if vs == [] then [] else Field(vs[0].w, vs[0].x) + Encode(vs[1..])
  }

  lemma {:induction false} EncodeAppend(vs: seq<TypedInt>, v: TypedInt)
    requires v.Ok() && AllOk(vs)
    ensures Encode(vs + [v]) == Encode(vs) + Field(v.w, v.x)
  {
    if vs == [] {
      assert vs + [v] == [v] && [v][1..] == [];
    } else {
      EncodeAppend(vs[1..], v);
      assert (vs + [v])[1..] == vs[1..] + [v];
    }
  }

  /** What the contracts of the buffer's typed append and typed read say about its content. */
  predicate StepOk(c: seq<Byte>, op: IntOp, c': seq<Byte>)
  {
    op.v.Ok() &&
    match op
    case Put(v) => c' == c + Field(v.w, v.x)
    case Get(v) => c == Field(v.w, v.x) + c'
  }

  /** `cs` are the successive contents while `ops` are performed, starting from an empty buffer. */
  predicate History(ops: seq<IntOp>, cs: seq<seq<Byte>>)
  {
    |cs| == |ops| + 1 && cs[0] == [] &&
    forall i :: 0 <= i < |ops| ==> StepOk(cs[i], ops[i], cs[i + 1])
  }

  function Puts(ops: seq<IntOp>): seq<TypedInt>
  {
    if ops == [] then [] else
      var before := Puts(ops[..|ops| - 1]);
      var last := ops[|ops| - 1];
      if last.Put? then before + [last.v] else before
  }

  function Gets(ops: seq<IntOp>): seq<TypedInt>
  {
    if ops == [] then [] else
      var before := Gets(ops[..|ops| - 1]);
      var last := ops[|ops| - 1];
      if last.Get? then before + [last.v] else before
  }

  /** Each read uses the width with which the value in its turn was appended. */
  predicate WidthsMatch(gets: seq<TypedInt>, puts: seq<TypedInt>)
  {
    forall i :: 0 <= i < |gets| && i < |puts| ==> gets[i].w == puts[i].w
  }

  /** Equal strings that start with a field of the same width carry the same value and the same rest. */
  lemma SameHead(w: Width, x: int, y: int, rest: seq<Byte>, rest': seq<Byte>)
    requires Fits(x, w.Size()) && Fits(y, w.Size())
    requires Field(w, x) + rest == Field(w, y) + rest'
    ensures x == y && rest == rest'
  {
    var s, t := Field(w, x) + rest, Field(w, y) + rest';
    assert s[..w.Size()] == Field(w, x) && t[..w.Size()] == Field(w, y);
    assert s[w.Size()..] == rest && t[w.Size()..] == rest';
    FieldIsInjective(w, x, y);
  }

  /** However appends and reads interleave, the values read are a prefix of the values appended,
      and the content is exactly the encoding of those not yet read. */
  lemma {:induction false} IntegersComeBackInOrder(ops: seq<IntOp>, cs: seq<seq<Byte>>)
    requires History(ops, cs)
    requires WidthsMatch(Gets(ops), Puts(ops))
    ensures Gets(ops) <= Puts(ops)
    ensures AllOk(Puts(ops))
    ensures cs[|ops|] == Encode(Puts(ops)[|Gets(ops)|..])
  {
    if ops != [] {
      var n := |ops| - 1;
      var earlier := ops[..n];
      var op := ops[n];
      assert StepOk(cs[n], op, cs[n + 1]);
      assert forall i :: 0 <= i < n ==> StepOk(cs[i], ops[i], cs[i + 1]);
      assert WidthsMatch(Gets(earlier), Puts(earlier)) by {
        assert Gets(earlier) <= Gets(ops) && Puts(earlier) <= Puts(ops);
        forall i | 0 <= i < |Gets(earlier)| && i < |Puts(earlier)|
          ensures Gets(earlier)[i].w == Puts(earlier)[i].w
        {
          assert Gets(ops)[i].w == Puts(ops)[i].w;
        }
      }
      IntegersComeBackInOrder(earlier, cs[..n + 1]);
      var pending := Puts(earlier)[|Gets(earlier)|..];
      if op.Put? {
        EncodeAppend(pending, op.v);
        assert Puts(ops)[|Gets(ops)|..] == pending + [op.v];
      } else {
        assert pending != [];
        var k := |Gets(earlier)|;
        assert pending[0] == Puts(ops)[k] && Gets(ops)[k] == op.v;
        assert op.v.w == pending[0].w;
        SameHead(op.v.w, op.v.x, pending[0].x, cs[n + 1], Encode(pending[1..]));
        assert Puts(ops)[|Gets(ops)|..] == pending[1..];
      }
    }
  }

  /** Prepending an integer and reading it at once gives it back and restores the content:
      `c1` is the content after the prepend of `x`, `c2` after the read that returned `y`. */
  lemma PrependThenRead(w: Width, x: int, y: int, c: seq<Byte>, c1: seq<Byte>, c2: seq<Byte>)
    requires Fits(x, w.Size()) && Fits(y, w.Size())
    requires c1 == Field(w, x) + c
    requires c1 == Field(w, y) + c2
    ensures y == x && c2 == c
  {
    SameHead(w, x, y, c, c2);
  }

  // ----- the same on a Buffer -----

  /** An append of a value, or a read of a given width. */
  datatype Call = Append(v: TypedInt) | Read(w: Width)

  /** The values appended by `calls`, in order. */
  function Appended(calls: seq<Call>): (vs: seq<TypedInt>)
    ensures |vs| <= |calls|
  {
    if calls == [] then [] else
      var before, last := Appended(calls[..|calls| - 1]), calls[|calls| - 1];
      if last.Append? then before + [last.v] else before
  }

  function Reads(calls: seq<Call>): nat
  {
    if calls == [] then 0 else Reads(calls[..|calls| - 1]) + if calls[|calls| - 1].Read? then 1 else 0
  }

  /** Every value fits its width, and each read finds a value there, which was appended with its width. */
  predicate Matched(calls: seq<Call>)
  {
    forall i :: 0 <= i < |calls| ==>
      match calls[i]
      case Append(v) => v.Ok()
      case Read(w) =>
        var earlier, k := Appended(calls[..i]), Reads(calls[..i]);
        k < |earlier| && earlier[k].w == w
  }

  lemma NextCall(calls: seq<Call>, i: nat)
    requires i < |calls|
    ensures Appended(calls[..i + 1])
         == Appended(calls[..i]) + if calls[i].Append? then [calls[i].v] else []
    ensures Reads(calls[..i + 1]) == Reads(calls[..i]) + if calls[i].Read? then 1 else 0
  {
    assert calls[..i + 1][..i] == calls[..i];
  }

  /** What has been read and what is still in the buffer after some calls. */
  ghost predicate IsServed(calls: seq<Call>, read: seq<TypedInt>, content: seq<Byte>)
  {
    var vs, k := Appended(calls), Reads(calls);
    k <= |vs| && AllOk(vs) && read == vs[..k] && content == Encode(vs[k..])
  }

  lemma AppendServes(calls: seq<Call>, i: nat, read: seq<TypedInt>, content: seq<Byte>, v: TypedInt)
    requires i < |calls| && calls[i] == Append(v) && v.Ok() && IsServed(calls[..i], read, content)
    ensures IsServed(calls[..i + 1], read, content + Field(v.w, v.x))
  {
    NextCall(calls, i);
    var vs, k := Appended(calls[..i]), Reads(calls[..i]);
    EncodeAppend(vs[k..], v);
    assert (vs + [v])[k..] == vs[k..] + [v];
  }

  lemma ReadServes(calls: seq<Call>, i: nat, read: seq<TypedInt>, content: seq<Byte>, w: Width, x: int, rest: seq<Byte>)
    requires Matched(calls) && i < |calls| && calls[i] == Read(w) && IsServed(calls[..i], read, content)
    requires Fits(x, w.Size()) && content == Field(w, x) + rest
    ensures IsServed(calls[..i + 1], read + [TypedInt(w, x)], rest)
  {
    NextCall(calls, i);
    var vs, k := Appended(calls[..i]), Reads(calls[..i]);
    assert vs[k..][1..] == vs[k + 1..] && vs[k..][0] == vs[k];
    assert vs + [] == vs && vs[k].Ok() && vs[k].w == w;
    SameHead(w, x, vs[k].x, rest, Encode(vs[k + 1..]));
    assert vs[..k] + [vs[k]] == vs[..k + 1];
  }

  lemma ReadHasBytes(calls: seq<Call>, i: nat, read: seq<TypedInt>, content: seq<Byte>)
    requires Matched(calls) && i < |calls| && calls[i].Read? && IsServed(calls[..i], read, content)
    ensures calls[i].w.Size() <= |content|
  {
    var vs, k := Appended(calls[..i]), Reads(calls[..i]);
    assert vs[k..][0] == vs[k];
  }

  /** Typed appends and reads on an empty buffer, in any order, across compaction and growth: the values
      read are the first of those appended, and the content encodes exactly the others. */
  method Perform(buf: Buffer, calls: seq<Call>) returns (read: seq<TypedInt>)
    requires buf.Valid() && buf.Contents() == [] && Matched(calls)
    modifies buf, buf.buffer
    ensures buf.Valid() && IsServed(calls, read, buf.Contents())
  {
    read := [];
    ghost var storage := buf.buffer;
    for i := 0 to |calls|
      invariant buf.Valid() && (buf.buffer == storage || fresh(buf.buffer))
      invariant IsServed(calls[..i], read, buf.Contents())
    {
      ghost var content := buf.Contents();
      match calls[i]
      case Append(v) =>
        AppendServes(calls, i, read, content, v);
        buf.AppendInt(v.w, v.x);
      case Read(w) =>
        ReadHasBytes(calls, i, read, content);
        var x := buf.ReadInt(w);
        ReadServes(calls, i, read, content, w, x, buf.Contents());
        read := read + [TypedInt(w, x)];
    }
    assert calls[..|calls|] == calls;
  }
}
