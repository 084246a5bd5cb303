/** The index arithmetic of muduo's Buffer: how its storage size and its two indices move. */
module BufferShape {

  const CHEAP_PREPEND: nat := 8
  const INITIAL_SIZE: nat := 1024

  datatype Shape = Shape(size: nat, reader: nat, writer: nat) {

    predicate Ok() {
      reader <= writer <= size && CHEAP_PREPEND <= size
    }

    function Readable(): nat
      requires Ok()
    {
      writer - reader
    }

    function Writable(): nat
      requires Ok()
    {
      size - writer
    }

    /** Room for `len` more bytes: nothing to do, grow at the end, or move the content to the front. */
    function EnsureWritable(len: nat): (r: Shape)
      requires Ok()
      ensures r.Ok() && r.Readable() == Readable() && r.Writable() >= len
    {
      if Writable() >= len then this
      else if Writable() + reader < len + CHEAP_PREPEND then this.(size := writer + len)
      else Shape(size, CHEAP_PREPEND, CHEAP_PREPEND + Readable())
    }

    /** A retrieve that empties the buffer puts both indices back to the start. */
    function Retrieve(len: nat): (r: Shape)
      requires Ok() && len <= Readable()
      ensures r.Ok() && r.Readable() == Readable() - len
    {
      if len < Readable() then this.(reader := reader + len)
      else Shape(size, CHEAP_PREPEND, CHEAP_PREPEND)
    }
  }

  /** A buffer freshly constructed with room for `initialSize` bytes. */
  function Fresh(initialSize: nat): (r: Shape)
    ensures r.Ok() && r.Readable() == 0 && r.Writable() == initialSize
  {
    Shape(CHEAP_PREPEND + initialSize, CHEAP_PREPEND, CHEAP_PREPEND)
  }

  datatype Op =
    | EnsureWritable(len: nat)
    | HasWritten(len: nat)
    | Append(len: nat)
    | Unwrite(len: nat)
    | Retrieve(len: nat)
    | Prepend(len: nat)

  /** What the operation asserts about its argument. */
  predicate Legal(sh: Shape, op: Op)
    requires sh.Ok()
  {
    match op
    case EnsureWritable(_) => true
    case HasWritten(len) => len <= sh.Writable()
    case Append(_) => true
    case Unwrite(len) => len <= sh.Readable()
    case Retrieve(len) => len <= sh.Readable()
    case Prepend(len) => len <= sh.reader
  }

  function Apply(sh: Shape, op: Op): (r: Shape)
    requires sh.Ok() && Legal(sh, op)
    ensures r.Ok()
  {
    match op
    case EnsureWritable(len) => sh.EnsureWritable(len)
    case HasWritten(len) => sh.(writer := sh.writer + len)
    case Append(len) => var e := sh.EnsureWritable(len); e.(writer := e.writer + len)
    case Unwrite(len) => sh.(writer := sh.writer - len)
    case Retrieve(len) => sh.Retrieve(len)
    case Prepend(len) => sh.(reader := sh.reader - len)
  }

  /** `ops` can be performed in order starting from `sh` without failing an assertion of the class. */
  predicate LegalRun(sh: Shape, ops: seq<Op>)
    requires sh.Ok()
    decreases |ops|
  {
    ops == [] || (Legal(sh, ops[0]) && LegalRun(Apply(sh, ops[0]), ops[1..]))
  }

  function Run(sh: Shape, ops: seq<Op>): (r: Shape)
    requires sh.Ok() && LegalRun(sh, ops)
    ensures r.Ok()
    decreases |ops|
  {
    if ops == [] then sh else Run(Apply(sh, ops[0]), ops[1..])
  }

  /** Content length plus the number of bytes an operation asks to write. */
  function Demand(sh: Shape, op: Op): nat
    requires sh.Ok()
  {
    sh.Readable() + if op.EnsureWritable? || op.Append? then op.len else 0
  }

  function Max(a: int, b: int): int { if a >= b then a else b }

  /** The largest demand over a run. */
  function Peak(sh: Shape, ops: seq<Op>): nat
    requires sh.Ok() && LegalRun(sh, ops)
    decreases |ops|
  {
    if ops == [] then 0 else Max(Demand(sh, ops[0]), Peak(Apply(sh, ops[0]), ops[1..]))
  }

  /** An operation that enlarges the storage leaves it at less than twice its demand, plus eight. */
  lemma GrowthIsBounded(sh: Shape, op: Op)
    requires sh.Ok() && Legal(sh, op)
    ensures sh.size <= Apply(sh, op).size <= Max(sh.size, 2 * Demand(sh, op) + 7)
  {
  }

  /** The storage never exceeds its initial size, or else about twice the peak demand. */
  lemma {:induction false} SpaceBoundFrom(sh: Shape, ops: seq<Op>, bound: nat)
    requires sh.Ok() && LegalRun(sh, ops)
    requires sh.size <= bound
    ensures Run(sh, ops).size <= Max(bound, 2 * Peak(sh, ops) + 7)
    decreases |ops|
  {
    if ops != [] {
      GrowthIsBounded(sh, ops[0]);
      SpaceBoundFrom(Apply(sh, ops[0]), ops[1..], Max(bound, 2 * Demand(sh, ops[0]) + 7));
    }
  }

  lemma SpaceBound(initialSize: nat, ops: seq<Op>)
    requires LegalRun(Fresh(initialSize), ops)
    ensures Run(Fresh(initialSize), ops).size
         <= Max(8 + initialSize, 2 * Peak(Fresh(initialSize), ops) + 7)
  {
    SpaceBoundFrom(Fresh(initialSize), ops, CHEAP_PREPEND + initialSize);
  }

  /** Storage is never given back by the run itself: sizes only grow. */
  lemma {:induction false} NeverShrinks(sh: Shape, ops: seq<Op>)
    requires sh.Ok() && LegalRun(sh, ops)
    ensures sh.size <= Run(sh, ops).size
    decreases |ops|
  {
    if ops != [] {
      NeverShrinks(Apply(sh, ops[0]), ops[1..]);
    }
  }
}
