/** The guest picture list, the heap blocks it owns, and the sweep, as values. */
module GuestStore {
  import opened Bytes
  import opened GuestClock

  type Ptr = nat

  /** malloc hands out a new address each time; `freed` lists the calls of free in order. */
  datatype Heap = Heap(blocks: map<Ptr, seq<Byte>>, next: Ptr, freed: seq<Ptr>) {

    function Malloc(bytes: seq<Byte>): Heap {
      this.(blocks := blocks[next := bytes], next := next + 1)
    }

    function Free(p: Ptr): Heap
      requires p in blocks
    {
      this.(blocks := blocks - {p}, freed := freed + [p])
    }
  }

  datatype GuestPic = GuestPic(lenPic: nat, data: Ptr, id: int, addTime: nat)

  datatype Store = Store(list: seq<GuestPic>, heap: Heap, inBounds: bool)

  const EMPTY_STORE: Store := Store([], Heap(map[], 0, []), true)

  /** The loop tests an entry before it tests for the end: with no entry later than the cutoff it reads
      the add time of an entry behind the last one. */
  predicate Overruns(list: seq<GuestPic>, cutoff: nat)
  {
    forall i :: 0 <= i < |list| ==> list[i].addTime <= cutoff
  }

  /** How many entries at the front of the list the sweep loop passes before it stops. */
  function Expired(list: seq<GuestPic>, cutoff: nat): (k: nat)
    ensures k <= |list|
    ensures forall i :: 0 <= i < k ==> list[i].addTime <= cutoff
    ensures k < |list| ==> list[k].addTime > cutoff
    ensures k == |list| <==> Overruns(list, cutoff)
  {
    if list == [] || list[0].addTime > cutoff then 0 else 1 + Expired(list[1..], cutoff)
  }

  /** Every block malloc'd so far is either freed, once and in the order of allocation, or is the data
      of exactly one list entry, in order; and the live blocks are exactly the latter. */
  ghost predicate Owned(st: Store)
  {
    && |st.heap.freed| + |st.list| == st.heap.next
    && (forall i :: 0 <= i < |st.heap.freed| ==> st.heap.freed[i] == i)
    && (forall i :: 0 <= i < |st.list| ==> st.list[i].data == |st.heap.freed| + i)
    && (forall p :: p in st.heap.blocks <==> |st.heap.freed| <= p < st.heap.next)
    && (forall i :: 0 <= i < |st.list| ==> |st.heap.blocks[st.list[i].data]| == st.list[i].lenPic)
  }

  /** What a reader of the list sees: the pictures themselves. */
  datatype Picture = Picture(id: int, bytes: seq<Byte>, addTime: nat)

  ghost function View(st: Store): seq<Picture>
    requires Owned(st)
  {
    seq(|st.list|, i requires 0 <= i < |st.list| =>
      Picture(st.list[i].id, st.heap.blocks[st.list[i].data], st.list[i].addTime))
  }

  /** The codec's malloc and copy, then the push. */
  function Push(st: Store, id: int, bytes: seq<Byte>, addTime: nat): Store
  {
    st.(list := st.list + [GuestPic(|bytes|, st.heap.next, id, addTime)], heap := st.heap.Malloc(bytes))
  }

  function DropFirst(st: Store): Store
    requires st.list != [] && st.list[0].data in st.heap.blocks
  {
    st.(list := st.list[1..], heap := st.heap.Free(st.list[0].data))
  }

  lemma DropFirstOwned(st: Store)
    requires Owned(st) && st.list != []
    ensures st.list[0].data in st.heap.blocks
    ensures Owned(DropFirst(st))
    ensures View(DropFirst(st)) == View(st)[1..]
  {
    var st' := DropFirst(st);
    assert forall i :: 0 <= i < |st'.list| ==> st'.list[i] == st.list[i + 1];
    assert View(st') == View(st)[1..];
  }

  ghost function Sweep(st: Store, cutoff: nat): Store
    requires Owned(st)
    decreases |st.list|
  {
    if st.list == [] then st.(inBounds := false)
    else if st.list[0].addTime > cutoff then st
    else
      DropFirstOwned(st);
      Sweep(DropFirst(st), cutoff)
  }

  lemma PushOwned(st: Store, id: int, bytes: seq<Byte>, addTime: nat)
    requires Owned(st)
    ensures Owned(Push(st, id, bytes, addTime))
    ensures View(Push(st, id, bytes, addTime)) == View(st) + [Picture(id, bytes, addTime)]
  {
  }

  /** The sweep drops the longest expired prefix of what a reader sees, and runs past the end of the
      list exactly when that prefix is the whole list. */
  lemma {:induction false} SweepDropsExpired(st: Store, cutoff: nat)
    requires Owned(st)
    ensures Owned(Sweep(st, cutoff))
    ensures View(Sweep(st, cutoff)) == View(st)[Expired(st.list, cutoff)..]
    ensures Sweep(st, cutoff).inBounds <==> st.inBounds && !Overruns(st.list, cutoff)
    ensures Sweep(st, cutoff).list == st.list[Expired(st.list, cutoff)..]
    ensures |Sweep(st, cutoff).heap.freed| == |st.heap.freed| + Expired(st.list, cutoff)
    decreases |st.list|
  {
    var k := Expired(st.list, cutoff);
    if st.list == [] || st.list[0].addTime > cutoff {
      assert View(st.(inBounds := false)) == View(st);
    } else {
      DropFirstOwned(st);
      var st' := DropFirst(st);
      SweepDropsExpired(st', cutoff);
      assert k == 1 + Expired(st'.list, cutoff);
      assert View(st')[k - 1..] == View(st)[k..];
    }
  }

  // ----- whole runs -----

  /** A frame that reached the store, with what QTime::currentTime() returned when it was handled. */
  datatype Event = Add(id: int, bytes: seq<Byte>, addNow: nat, sweepNow: nat) | Query(id: int)

  ghost function Handle(st: Store, e: Event): Store
    requires Owned(st)
  {
    match e
    case Query(_) => st
    case Add(id, bytes, addNow, sweepNow) =>
      PushOwned(st, id, bytes, addNow);
      Sweep(Push(st, id, bytes, addNow), Cutoff(sweepNow))
  }

  lemma HandleOwned(st: Store, e: Event)
    requires Owned(st)
    ensures Owned(Handle(st, e))
  {
    if e.Add? {
      PushOwned(st, e.id, e.bytes, e.addNow);
      SweepDropsExpired(Push(st, e.id, e.bytes, e.addNow), Cutoff(e.sweepNow));
    }
  }

  ghost function Run(events: seq<Event>): (st: Store)
    ensures Owned(st)
  {
    if events == [] then EMPTY_STORE else
      var before := Run(events[..|events| - 1]);
      HandleOwned(before, events[|events| - 1]);
      Handle(before, events[|events| - 1])
  }

  /** The pictures of the `appl` frames, in order of arrival. */
  function Arrived(events: seq<Event>): seq<Picture>
  {
    if events == [] then [] else
      var earlier := Arrived(events[..|events| - 1]);
      match events[|events| - 1]
      case Query(_) => earlier
      case Add(id, bytes, addNow, _) => earlier + [Picture(id, bytes, addNow)]
  }

  lemma Suffixes(ps: seq<Picture>, p: Picture, d: nat, k: nat)
    requires d <= |ps| && d <= k <= |ps| + 1
    ensures (ps[d..] + [p])[k - d..] == (ps + [p])[k..]
  {
  }

  /** After a push and its sweep the pictures are those from before and the new one, less some at the
      front, whose blocks are now freed. */
  lemma AddMovesOn(st: Store, e: Event)
    requires Owned(st) && e.Add?
    ensures var st' := Handle(st, e);
            var pictures := View(st) + [Picture(e.id, e.bytes, e.addNow)];
            && Owned(st') && st'.heap.next == st.heap.next + 1
            && |st.heap.freed| <= |st'.heap.freed| <= |st.heap.freed| + |pictures|
            && View(st') == pictures[|st'.heap.freed| - |st.heap.freed|..]
  {
    PushOwned(st, e.id, e.bytes, e.addNow);
    SweepDropsExpired(Push(st, e.id, e.bytes, e.addNow), Cutoff(e.sweepNow));
  }

  /** Ownership over whole runs, whatever the clock does: the frames' pictures are split between
      blocks freed once each, oldest first, and list entries that still hold the frame's bytes. */
  lemma {:induction false} OwnershipIsConserved(events: seq<Event>)
    ensures var st := Run(events);
            && Owned(st)
            && st.heap.next == |Arrived(events)|
            && View(st) == Arrived(events)[|st.heap.freed|..]
  {
    var st := Run(events);
    if events == [] {
      assert View(st) == [];
    } else {
      var earlier, e := events[..|events| - 1], events[|events| - 1];
      OwnershipIsConserved(earlier);
      HandleOwned(Run(earlier), e);
      if e.Add? {
        AddMovesOn(Run(earlier), e);
        Suffixes(Arrived(earlier), Picture(e.id, e.bytes, e.addNow), |Run(earlier).heap.freed|, |st.heap.freed|);
      }
    }
  }

  lemma ViewIsTail(events: seq<Event>)
    ensures var st, ps := Run(events), Arrived(events);
            && |ps| == |st.heap.freed| + |st.list|
            && forall i :: 0 <= i < |st.list| ==> View(st)[i] == ps[|st.heap.freed| + i]
  {
    OwnershipIsConserved(events);
    var st, d := Run(events), |Run(events).heap.freed|;
    assert forall i :: 0 <= i < |st.list| ==> Arrived(events)[d..][i] == Arrived(events)[d + i];
  }

  /** No block is ever freed twice, and no freed block is still reachable from the list. */
  lemma FreedOnceAndNeverUsed(events: seq<Event>)
    ensures var st := Run(events);
            && (forall i, j :: 0 <= i < j < |st.heap.freed| ==> st.heap.freed[i] != st.heap.freed[j])
            && (forall i :: 0 <= i < |st.list| ==> st.list[i].data !in st.heap.freed)
            && (forall i, j :: 0 <= i < j < |st.list| ==> st.list[i].data != st.list[j].data)
  {
    OwnershipIsConserved(events);
  }

  /** The list that a push leaves for the sweep. */
  function Pushed(st: Store, e: Event): (list: seq<GuestPic>)
    requires e.Add?
    ensures |list| == |st.list| + 1 && list[|st.list|].addTime == e.addNow
    ensures forall i :: 0 <= i < |st.list| ==> list[i] == st.list[i]
  {
    Push(st, e.id, e.bytes, e.addNow).list
  }

  lemma AddFrees(st: Store, e: Event)
    requires Owned(st) && e.Add?
    ensures var st', m := Handle(st, e), Expired(Pushed(st, e), Cutoff(e.sweepNow));
            && st'.list == Pushed(st, e)[m..]
            && |st'.heap.freed| == |st.heap.freed| + m
            && (st'.inBounds <==> st.inBounds && !Overruns(Pushed(st, e), Cutoff(e.sweepNow)))
  {
    PushOwned(st, e.id, e.bytes, e.addNow);
    SweepDropsExpired(Push(st, e.id, e.bytes, e.addNow), Cutoff(e.sweepNow));
  }
}
