/** QReadWriteLock, seen by a thread that runs alone. */
module ReadWriteLocks {

  class ReadWriteLock {
    var readers: nat
    var writer: bool

    predicate IsFree()
      reads this
    {
      readers == 0 && !writer
    }

    constructor ()
      ensures IsFree()
    {
      readers, writer := 0, false;
    }

    method LockForRead()
      requires !writer
      modifies this
      ensures readers == old(readers) + 1 && !writer
    {
      readers := readers + 1;
    }

    method LockForWrite()
      requires IsFree()
      modifies this
      ensures readers == 0 && writer
    {
      writer := true;
    }

    method TryLockForWrite() returns (ok: bool)
      modifies this
      ensures ok == old(IsFree())
      ensures readers == old(readers) && writer == (old(writer) || ok)
    {
      ok := IsFree();
      if ok {
        writer := true;
      }
    }

    method Unlock()
      requires writer || readers > 0
      modifies this
      ensures !writer && readers == if old(writer) then old(readers) else old(readers) - 1
    {
      if writer {
        writer := false;
      } else {
        readers := readers - 1;
      }
    }
  }
}
