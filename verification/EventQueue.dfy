/** The event ring buffer (vm/vm.c): 256 slots, one of which stays empty, used as a queue of at most 255 items. */
module EventQueue {
  import opened Machine

  /** The items between head and tail, oldest first. */
  ghost function Between(ring: seq<Item>, head: nat, tail: nat): seq<Item>
    requires head < |ring| && tail < |ring|
  {
    if head <= tail then ring[head..tail] else ring[head..] + ring[..tail]
  }

  /** The index after i in a ring of n slots. */
  function After(i: nat, n: nat): nat {
    if i + 1 == n then 0 else i + 1
  }

  lemma PoppedItems(ring: seq<Item>, head: nat, tail: nat)
    requires head < |ring| && tail < |ring| && head != tail
    ensures Between(ring, head, tail) == [ring[head]] + Between(ring, After(head, |ring|), tail)
  {
    if head < tail {
      assert ring[head..tail] == [ring[head]] + ring[head + 1..tail];
    } else if head + 1 == |ring| {
      assert ring[head..] == [ring[head]] && ring[..tail] == ring[0..tail];
    } else {
      assert ring[head..] + ring[..tail] == [ring[head]] + (ring[head + 1..] + ring[..tail]);
    }
  }

  lemma PushedItems(ring: seq<Item>, head: nat, tail: nat, item: Item)
    requires head < |ring| && tail < |ring| && After(tail, |ring|) != head
    ensures Between(ring[tail := item], head, After(tail, |ring|)) == Between(ring, head, tail) + [item]
  {
    var r := ring[tail := item];
    if tail < head {
      assert r[head..] + r[..tail + 1] == ring[head..] + ring[..tail] + [item];
    } else if tail + 1 == |ring| {
      assert r[head..] + r[..0] == ring[head..tail] + [item];
    } else {
      assert r[head..tail + 1] == ring[head..tail] + [item];
    }
  }

  class EventQueue {
    const ring: array<Item>
    var head: nat
    var tail: nat

    ghost predicate Valid()
      reads this
    {
      ring.Length == EVENT_QUEUE_MAX && head < EVENT_QUEUE_MAX && tail < EVENT_QUEUE_MAX
    }

    /** The queued items, oldest first. */
    ghost function Items(): (q: seq<Item>)
      requires Valid()
      reads this, ring
      ensures |q| < EVENT_QUEUE_MAX
    {
      Between(ring[..], head, tail)
    }

    constructor ()
      ensures Valid() && fresh(ring) && Items() == []
    {
      ring := new Item[EVENT_QUEUE_MAX](_ => Item([], 0));
      head, tail := 0, 0;
    }

    /** scml_vm_trigger_event and queue_event_handler. It fails exactly when 255 items are queued. */
    method Push(item: Item) returns (ok: bool)
      requires Valid()
      modifies this`tail, ring
      ensures Valid()
      ensures ok <==> |old(Items())| < EVENT_QUEUE_MAX - 1
      ensures Items() == if ok then old(Items()) + [item] else old(Items())
    {
      var next := (tail + 1) % EVENT_QUEUE_MAX;
      if next == head { return false; }
      PushedItems(ring[..], head, tail, item);
      ring[tail] := item;
      tail := next;
      ok := true;
    }

    /** The front item, which leaves the queue. */
    method Pop() returns (item: Item)
      requires Valid() && Items() != []
      modifies this`head
      ensures Valid()
      ensures item == old(Items()[0]) && Items() == old(Items()[1..])
    {
      PoppedItems(ring[..], head, tail);
      item := ring[head];
      head := (head + 1) % EVENT_QUEUE_MAX;
    }

    method IsEmpty() returns (empty: bool)
      requires Valid()
      ensures empty <==> Items() == []
    {
      empty := head == tail;
    }

    /** dispatch_next_event's use of the queue. The requeue comes after the pop, so it never finds the ring full and
        ignoring its result loses nothing. */
    method Rotate(events: seq<Event>) returns (front: Item)
      requires Valid() && Items() != []
      modifies this, ring
      ensures Valid()
      ensures front == old(Items()[0]) && Items() == Machine.Rotate(events, old(Items()))
    {
      hide DueHandler, Between;
      front := Pop();
      if HasMore(events, front) {
        var ok := Push(Item(front.name, front.next + 1));
        assert ok;
      }
    }

    /** The queue part of scml_vm_clear_events. */
    method Clear()
      requires Valid()
      modifies this
      ensures Valid() && Items() == []
    {
      while head != tail
        invariant Valid()
        decreases |Items()|
      {
        head := (head + 1) % EVENT_QUEUE_MAX;
      }
      head, tail := 0, 0;
    }
  }
}
