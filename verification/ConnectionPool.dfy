/** The bounded pool of database handles, as the object one caller sees. */
module ConnectionPool {
  import opened Sequences

  type Handle = int

  datatype PoolError = PoolClosed | PoolExhausted | QueueFull

  datatype PoolReply<+T> = Got(value: T) | Failed(error: PoolError)

  const MAX_SIZE := 20

  function Handles(n: nat): (hs: seq<Handle>)
    ensures |hs| == n && forall i :: 0 <= i < n ==> hs[i] == i
  {
    seq(n, i => i)
  }

  predicate Full(size: int, queued: nat) {
    size > 0 && queued >= size
  }

  /** `lent` and `shut` say where the handles that are not queued are. */
  class Pool {
    var queue: seq<Handle>
    var closed: bool
    const size: int
    ghost var allHandles: set<Handle>
    ghost var lent: set<Handle>
    ghost var shut: set<Handle>

    /** Every handle made is in exactly one place: queued, lent or shut. */
    ghost predicate Valid()
      reads this
    {
      && Distinct(queue)
      && (forall h :: h in allHandles <==> h in queue || h in lent || h in shut)
      && (forall h :: h in queue ==> h !in lent && h !in shut)
      && lent !! shut
      && |allHandles| == (if size > 0 then size else 0)
    }

    constructor (requested: int)
      ensures Valid() && !closed && size == Min(requested, MAX_SIZE)
      ensures lent == {} && shut == {}
    {
      size := Min(requested, MAX_SIZE);
      closed := false;
      var hs := Handles(if Min(requested, MAX_SIZE) > 0 then Min(requested, MAX_SIZE) else 0);
      queue := hs;
      allHandles := set h | h in hs;
      lent := {};
      shut := {};
      DistinctSetSize(hs);
    }

    /** The entry half of `get_connection`; an empty queue stands for the timeout. */
    method Checkout() returns (r: PoolReply<Handle>)
      requires Valid()
      modifies this
      ensures Valid() && closed == old(closed) && shut == old(shut) && allHandles == old(allHandles)
      ensures old(closed) ==> r == Failed(PoolClosed)
      ensures !old(closed) && old(queue) == [] ==> r == Failed(PoolExhausted)
      ensures r.Failed? ==> queue == old(queue) && lent == old(lent)
      ensures r.Got? ==>
        r.value !in old(lent) && r.value !in shut && lent == old(lent) + {r.value} && old(queue) == [r.value] + queue
      ensures r.Got? <==> !old(closed) && old(queue) != []
    {
      if closed {
        return Failed(PoolClosed);
      }
      if queue == [] {
        return Failed(PoolExhausted);
      }
      var h := queue[0];
      assert queue == [h] + queue[1..];
      queue := queue[1..];
      lent := lent + {h};
      return Got(h);
    }

    /** The exit half: `put_nowait` would raise on a full queue, and never does. */
    method Checkin(h: Handle) returns (r: PoolReply<()>)
      requires Valid() && h in lent
      modifies this
      ensures Valid() && closed == old(closed) && shut == old(shut) && allHandles == old(allHandles)
      ensures r == Got(()) && queue == old(queue) + [h] && lent == old(lent) - {h}
    {
      HasRoom(h);
      if Full(size, |queue|) {
        return Failed(QueueFull);
      }
      queue := queue + [h];
      lent := lent - {h};
      return Got(());
    }

    lemma HasRoom(h: Handle)
      requires Valid() && h in lent
      ensures |queue| < size && !Full(size, |queue|)
    {
      forall q | q in queue ensures q in allHandles - {h} {
        assert q in allHandles;
      }
      DistinctFits(queue, allHandles - {h});
    }

    /** Drains the queue.  Handles lent out at this moment are not touched. */
    method Close()
      requires Valid()
      modifies this
      ensures Valid() && closed && queue == [] && allHandles == old(allHandles)
      ensures lent == old(lent) && forall h :: h in shut <==> h in old(shut) || h in old(queue)
      ensures shut == allHandles <==> lent == {}
    {
      closed := true;
      while queue != []
        invariant Valid() && lent == old(lent) && allHandles == old(allHandles)
        invariant closed
        invariant forall h :: h in shut || h in queue <==> h in old(shut) || h in old(queue)
        decreases |queue|
      {
        var h := queue[0];
        assert queue == [h] + queue[1..];
        queue := queue[1..];
        shut := shut + {h};
      }
      assert forall h :: h in allHandles <==> h in queue || h in lent || h in shut;
      assert forall h :: h !in queue;
      assert allHandles - shut == lent && allHandles == shut + lent;
    }
  }
}
