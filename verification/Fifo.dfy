/** The firmware's event FIFO, a ring of 31 items. */
module Fifo {
  import opened Keys

  const FIFO_SIZE := 31

  /** What `fifo_dequeue` hands out when there is nothing: all zeros. */
  const NOTHING := Event(0, Idle)

  function At(start: nat, i: nat): nat { if start + i < FIFO_SIZE then start + i else start + i - FIFO_SIZE }

  /** The n items from `start` on, around the end. */
  function Items(a: seq<Event>, start: nat, n: nat): (s: seq<Event>)
    requires |a| == FIFO_SIZE && start < FIFO_SIZE && n <= FIFO_SIZE
    ensures |s| == n
  {
    seq(n, i requires 0 <= i < n => a[At(start, i)])
  }

  lemma StepIndex(i: nat)
    requires i < FIFO_SIZE
    ensures (i + 1) % FIFO_SIZE == At(i, 1)
  {
  }

  /** In a full ring the newest item takes the place of the oldest. */
  lemma Displaced(a: seq<Event>, start: nat, item: Event)
    requires |a| == FIFO_SIZE && start < FIFO_SIZE
    ensures Items(a[start := item], At(start, 1), FIFO_SIZE) == Items(a, start, FIFO_SIZE)[1..] + [item]
  {
    var got, want := Items(a[start := item], At(start, 1), FIFO_SIZE), Items(a, start, FIFO_SIZE)[1..] + [item];
    forall i | 0 <= i < FIFO_SIZE ensures got[i] == want[i] {
      if i < FIFO_SIZE - 1 {
        assert At(At(start, 1), i) == At(start, i + 1) != start;
      } else {
        assert At(At(start, 1), i) == start;
      }
    }
  }

  class EventFifo {
    const items: array<Event>
    var count: nat
    var readIdx: nat
    var writeIdx: nat
    ghost var accepted: seq<Event>   // everything ever queued
    ghost var taken: seq<Event>      // everything ever handed out

    constructor ()
      ensures Valid() && fresh(items) && Contents() == accepted == taken == []
    {
      items := new Event[FIFO_SIZE](_ => NOTHING);
      count, readIdx, writeIdx, accepted, taken := 0, 0, 0, [], [];
    }

    ghost predicate Valid() reads this, items {
      && items.Length == FIFO_SIZE && count <= FIFO_SIZE && readIdx < FIFO_SIZE && writeIdx < FIFO_SIZE
      && writeIdx == At(readIdx, count)
      && accepted == taken + Items(items[..], readIdx, count)
    }

    /** The queued events, oldest first. */
    ghost function Contents(): (s: seq<Event>)
      requires Valid()
      reads this, items
      ensures |s| == count
    {
      Items(items[..], readIdx, count)
    }

    method Flush()
      requires Valid()
      modifies this
      ensures Valid() && Contents() == [] && taken == old(taken)
    {
      writeIdx, readIdx, count := 0, 0, 0;
      accepted := taken;
      assert accepted == taken + Contents();
    }

    /** Refuses the item, and changes nothing, when the ring is full. */
    method Enqueue(item: Event) returns (ok: bool)
      requires Valid()
      modifies this, items
      ensures Valid() && ok == (|old(Contents())| < FIFO_SIZE)
      ensures Contents() == if ok then old(Contents()) + [item] else old(Contents())
      ensures accepted == (if ok then old(accepted) + [item] else old(accepted)) && taken == old(taken)
    {
      if count >= FIFO_SIZE {
        return false;
      }
      items[writeIdx] := item;
      writeIdx := (writeIdx + 1) % FIFO_SIZE;
      count := count + 1;
      ok := true;
      accepted := accepted + [item];
      assert Items(items[..], readIdx, count) == old(Contents()) + [item];
    }

    /** Drops the oldest item when there is no room for a new one. */
    method EnqueueForce(item: Event)
      requires Valid()
      modifies this, items
      ensures Valid()
      ensures Contents() == (if |old(Contents())| == FIFO_SIZE then old(Contents())[1..] else old(Contents())) + [item]
      ensures taken == old(taken)
    {
      var ok := Enqueue(item);
      if ok {
        return;
      }
      ghost var a, start := items[..], readIdx;
      items[writeIdx] := item;
      StepIndex(writeIdx);
      StepIndex(readIdx);
      writeIdx := (writeIdx + 1) % FIFO_SIZE;
      readIdx := (readIdx + 1) % FIFO_SIZE;
      Displaced(a, start, item);
      assert items[..] == a[start := item];
      accepted := taken + (old(Contents())[1..] + [item]);
    }

    method Dequeue() returns (item: Event)
      requires Valid()
      modifies this
      ensures Valid()
      ensures accepted == old(accepted)
      ensures old(Contents()) == [] ==> item == NOTHING && Contents() == [] && taken == old(taken)
      ensures old(Contents()) != [] ==>
                item == old(Contents())[0] && Contents() == old(Contents())[1..] && taken == old(taken) + [item]
    {
      if count == 0 {
        return NOTHING;
      }
      item := items[readIdx];
      readIdx := (readIdx + 1) % FIFO_SIZE;
      count := count - 1;
      taken := taken + [item];
      assert Items(items[..], readIdx, count) == old(Contents())[1..];
    }
  }
}
