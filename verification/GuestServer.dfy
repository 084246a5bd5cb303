/** The guest server: codec callbacks over a list of heap-allocated pictures, on one event loop. */
module GuestServerClasses {
  import opened Options
  import opened Bytes
  import opened GuestClock
  import opened GuestStore
  import opened QueryReply
  import opened ReadWriteLocks

  /** The C heap, as far as this server uses it. */
  class Allocator {
    var blocks: map<Ptr, seq<Byte>>
    var next: Ptr
    ghost var freed: seq<Ptr>

    ghost function State(): Heap
      reads this
    {
      Heap(blocks, next, freed)
    }

    constructor ()
      ensures State() == Heap(map[], 0, [])
    {
      blocks, next, freed := map[], 0, [];
    }

    method Malloc(bytes: seq<Byte>) returns (p: Ptr)
      modifies this
      ensures p == old(next) && State() == old(State()).Malloc(bytes)
    {
      p := next;
      blocks := blocks[p := bytes];
      next := next + 1;
    }

    method Free(p: Ptr)
      requires p in blocks
      modifies this
      ensures State() == old(State()).Free(p)
    {
      blocks := blocks - {p};
      freed := freed + [p];
    }
  }

  class GuestServer {
    var guestList: seq<GuestPic>
    const heap: Allocator
    const lock: ReadWriteLock
    ghost var inBounds: bool  // no sweep has read behind the last entry

    ghost function State(): Store
      reads this, heap
    {
      Store(guestList, heap.State(), inBounds)
    }

    /** Between two callbacks the lock is free, every live block belongs to one list entry, and every reply
        frame has a length that fits its int32. */
    ghost predicate Valid()
      reads this, heap, lock
    {
      && lock.IsFree()
      && Owned(State())
      && forall i :: 0 <= i < |guestList| ==> guestList[i].lenPic + 4 < 0x8000_0000
    }

    constructor ()
      ensures Valid() && State() == EMPTY_STORE
      ensures fresh(heap) && fresh(lock)
    {
      guestList, inBounds := [], true;
      heap := new Allocator();
      lock := new ReadWriteLock();
    }

    /** `data` was allocated by the codec and is not in the list yet: `before` is the state before that. */
    method OnStringMessageAdd(data: Ptr, len: nat, id: int, addNow: nat, sweepNow: nat,
                              ghost before: Store, ghost bytes: seq<Byte>)
      returns (reply: seq<Byte>)
      requires Owned(before) && before.inBounds == inBounds && lock.IsFree()
      requires guestList == before.list && heap.State() == before.heap.Malloc(bytes)
      requires data == before.heap.next && len == |bytes|
      modifies this, heap, lock
      ensures State() == Handle(before, Add(id, bytes, addNow, sweepNow))
      ensures Owned(State()) && lock.IsFree()
      ensures forall i :: 0 <= i < |guestList| ==> guestList[i] in before.list || guestList[i].lenPic == len
      ensures reply == OK
    {
      var guestPic := GuestPic(len, data, id, addNow);
      lock.LockForWrite();
      guestList := guestList + [guestPic];
      lock.Unlock();
      PushOwned(before, id, bytes, addNow);
      assert State() == Push(before, id, bytes, addNow);
      SweepDropsExpired(State(), Cutoff(sweepNow));
      ClearList(sweepNow);
      reply := OK;
    }

    method OnStringMessageQuery(id: int) returns (reply: seq<Byte>)
      requires Valid()
      modifies lock
      ensures Valid() && State() == old(State())
      ensures reply == Answer(View(State()), id)
      ensures DecodeAnswer(reply) == Some(Matching(View(State()), id))
    {
      StoredAnswersDecode(State(), id);
      lock.LockForRead();
      var flag;
      reply, flag := SendMatching(id);
      if flag == 0 {
        reply := reply + EMPTY;
      }
      lock.Unlock();
    }

    /** One reply frame for each picture of `id`; `flag` counts them. */
    method SendMatching(id: int) returns (reply: seq<Byte>, flag: nat)
      requires Owned(State())
      requires forall i :: 0 <= i < |guestList| ==> guestList[i].lenPic + 4 < 0x8000_0000
      ensures reply == Reply(Matching(View(State()), id)) && flag == |Matching(View(State()), id)|
    {
      flag := 0;
      reply := [];
      ghost var view := View(State());
      var it := 0;
      while it != |guestList|
        invariant it <= |guestList| == |view|
        invariant reply == Reply(Matching(view[..it], id)) && flag == |Matching(view[..it], id)|
        decreases |guestList| - it
      {
        ReplyNext(view, it, id);
        if id == guestList[it].id {
          flag := flag + 1;
          var totalLen := guestList[it].lenPic + 4;
          assert totalLen < 0x8000_0000 && guestList[it].lenPic == |view[it].bytes|;
          reply := reply + ToLe(totalLen, 4);
          reply := reply + heap.blocks[guestList[it].data];
        }
        it := it + 1;
      }
      assert view[..|view|] == view;
    }

    /** Deletes outdated pictures. The lock is free on a single event loop, so the sweep always runs. */
    method ClearList(now: nat)
      requires Owned(State())
      modifies this, heap, lock
      ensures State() == if old(lock.IsFree()) then old(Sweep(State(), Cutoff(now))) else old(State())
      ensures lock.readers == old(lock.readers) && lock.writer == old(lock.writer)
    {
      var ok := lock.TryLockForWrite();
      if !ok {
        return;
      }
      var cutoff := Cutoff(now);
      var addTime := AddTimeOfFirst();
      while addTime <= cutoff && guestList != []
        invariant lock.writer && lock.readers == old(lock.readers)
        invariant Owned(State()) && (guestList != [] ==> addTime == guestList[0].addTime)
        invariant inBounds == (old(inBounds) && guestList != [])
        invariant Sweep(State(), cutoff) == old(Sweep(State(), cutoff))
        decreases |guestList|
      {
        DropFirstOwned(State());
        var it := guestList[0];
        heap.Free(it.data);
        guestList := guestList[1..];
        addTime := AddTimeOfFirst();
      }
      lock.Unlock();
    }

    /** Reads the add time at the iterator; behind the last entry that may give anything. */
    method AddTimeOfFirst() returns (addTime: nat)
      modifies this`inBounds
      ensures guestList != [] ==> addTime == guestList[0].addTime
      ensures inBounds == (old(inBounds) && guestList != [])
    {
      if guestList != [] {
        addTime := guestList[0].addTime;
      } else {
        addTime := *;
        inBounds := false;
      }
    }
  }
}
