/** The queue of received packets of a session: a doubly linked list with a count, shown to
    behave as a sequence. */
module PacketQueue {
  import opened Options
  import opened Bytes

  datatype Item = Item(data: seq<Byte>, size: int, dataFlag: bool)

  class Element {
    const item: Item
    var next: Element?
    var prev: Element?

    constructor (item: Item, next: Element?, prev: Element?)
      ensures this.item == item && this.next == next && this.prev == prev
    {
      this.item, this.next, this.prev := item, next, prev;
    }
  }

  function Items(elements: seq<Element>): (items: seq<Item>)
    ensures |items| == |elements| && forall i | 0 <= i < |items| :: items[i] == elements[i].item
  {
    seq(|elements|, i requires 0 <= i < |elements| => elements[i].item)
  }

  class SafeList {
    var count: nat
    var first: Element?
    var last: Element?
    ghost var elements: seq<Element>
    /** What was taken out so far, and the operations so far. */
    ghost var out: seq<Item>
    ghost var history: seq<Op>

    /** The links run through the elements in both directions, and the ends are null or set
        together. */
    ghost predicate Valid()
      reads this, elements
    {
      && count == |elements|
      && (if elements == [] then first == null && last == null
          else && first == elements[0] && first.prev == null
               && last == elements[|elements| - 1] && last.next == null)
      && (forall i, j | 0 <= i < j < |elements| ::
            && elements[i] != elements[j]
            && (j == i + 1 ==> elements[i].next == elements[j] && elements[j].prev == elements[i]))
    }

    ghost function Contents(): seq<Item>
      reads this
    {
      Items(elements)
    }

    ghost function Value(): Trace
      reads this
    {
      Trace(Contents(), out)
    }

    /** The list is what its operations make of an empty queue. */
    ghost predicate Traced()
      reads this
    {
      Value() == Run(Trace([], []), history)
    }

    /** The operation that was added, and what it did. */
    ghost predicate Logged(before: seq<Op>, was: Trace, op: Op)
      reads this
    {
      history == before + [op] && Value() == Step(was, op)
    }

    /** One more operation on the list. */
    ghost method Record(op: Op, was: Trace)
      requires was == Run(Trace([], []), history) && Value() == Step(was, op)
      modifies this`history
      ensures history == old(history) + [op] && Traced()
    {
      RunSnoc(Trace([], []), history, op);
      history := history + [op];
    }

    /** `CWCreateSafeList` */
    constructor ()
      ensures Valid() && Traced() && Contents() == [] && out == [] && history == []
    {
      count, first, last, elements, out, history := 0, null, null, [], [], [];
    }

    method LinkFirst(element: Element)
      requires Valid() && element !in elements && element.next == first && element.prev == null
      modifies this`first, this`last, this`count, this`elements, elements
      ensures Valid() && elements == [element] + old(elements)
    {
      if first != null {
        first.prev := element;
      }
      first := element;
      if last == null {
        last := element;
      }
      count := count + 1;
      elements := [element] + elements;
    }

    method LinkLast(element: Element)
      requires Valid() && element !in elements && element.next == null && element.prev == last
      modifies this`first, this`last, this`count, this`elements, elements
      ensures Valid() && elements == old(elements) + [element]
    {
      if last != null {
        last.next := element;
      }
      last := element;
      if first == null {
        first := element;
      }
      count := count + 1;
      elements := elements + [element];
    }

    /** `CWAddElementToSafeListHead`; a null packet is refused. */
    method AddHead(data: Option<seq<Byte>>, size: int, dataFlag: bool) returns (ok: bool)
      requires Valid() && Traced()
      modifies this, elements
      ensures Valid() && Traced() && ok == data.Some?
      ensures if ok then Logged(old(history), old(Value()), PushHead(Item(data.value, size, dataFlag)))
              else history == old(history) && Value() == old(Value())
      ensures Contents() == (if ok then [Item(data.value, size, dataFlag)] else []) + old(Contents())
      ensures forall e | e in elements :: e in old(elements) || fresh(e)
    {
      if data.None? {
        return false;
      }
      var element := new Element(Item(data.value, size, dataFlag), first, null);
      ghost var was := Value();
      LinkFirst(element);
      Record(PushHead(element.item), was);
      return true;
    }

    /** `CWAddElementToSafeListTailwitDataFlag`, and `CWAddElementToSafeListTail`, which
        leaves the data flag to chance. */
    method AddTail(data: Option<seq<Byte>>, size: int, dataFlag: bool) returns (ok: bool)
      requires Valid() && Traced()
      modifies this, elements
      ensures Valid() && Traced() && ok == data.Some?
      ensures if ok then Logged(old(history), old(Value()), PushTail(Item(data.value, size, dataFlag)))
              else history == old(history) && Value() == old(Value())
      ensures Contents() == old(Contents()) + if ok then [Item(data.value, size, dataFlag)] else []
      ensures forall e | e in elements :: e in old(elements) || fresh(e)
    {
      if data.None? {
        return false;
      }
      var element := new Element(Item(data.value, size, dataFlag), null, last);
      ghost var was := Value();
      LinkLast(element);
      Record(PushTail(element.item), was);
      return true;
    }

    /** `CWGetHeadElementFromSafeList` */
    method GetHead() returns (item: Option<Item>)
      requires Valid()
      ensures item == if Contents() == [] then None else Some(Contents()[0])
    {
      if first == null {
        return None;
      }
      return Some(first.item);
    }

    /** `CWRemoveHeadElementFromSafeListwithDataFlag` */
    method RemoveHead() returns (item: Option<Item>)
      requires Valid() && Traced()
      modifies this, elements
      ensures Valid() && Traced() && elements == if old(elements) == [] then [] else old(elements)[1..]
      ensures Logged(old(history), old(Value()), PopHead)
      ensures item == if old(elements) == [] then None else Some(old(elements)[0].item)
      ensures if old(Contents()) == [] then item.None? && Contents() == []
              else item == Some(old(Contents())[0]) && Contents() == old(Contents())[1..]
    {
      ghost var was := Value();
      if first == null {
        Record(PopHead, was);
        return None;
      }
      var element := first;
      assert |elements| > 1 ==> elements[1] in elements;
      first := first.next;
      if first == null {
        last := null;
      } else {
        first.prev := null;
      }
      count := count - 1;
      elements, out := elements[1..], out + [element.item];
      Record(PopHead, was);
      return Some(element.item);
    }

    /** `CWRemoveTailElementFromSafeList` */
    method RemoveTail() returns (item: Option<Item>)
      requires Valid() && Traced()
      modifies this, elements
      ensures Valid() && Traced()
      ensures elements == if old(elements) == [] then [] else old(elements)[..|old(elements)| - 1]
      ensures Logged(old(history), old(Value()), PopTail)
      ensures var n := |old(Contents())|;
              if n == 0 then item.None? && Contents() == []
              else item == Some(old(Contents())[n - 1]) && Contents() == old(Contents())[..n - 1]
    {
      ghost var was := Value();
      if last == null {
        Record(PopTail, was);
        return None;
      }
      var element := last;
      assert |elements| > 1 ==> elements[|elements| - 2] in elements;
      last := last.prev;
      if last == null {
        first := null;
      } else {
        last.next := null;
      }
      count := count - 1;
      elements, out := elements[..|elements| - 1], out + [element.item];
      Record(PopTail, was);
      return Some(element.item);
    }

    /** `CWCleanSafeList`: every packet is passed to the delete function, in order. */
    method Clean() returns (deleted: seq<Item>)
      requires Valid() && Traced()
      modifies this, elements
      ensures Valid() && Traced() && Contents() == [] && deleted == old(Contents())
    {
      deleted := [];
      ghost var all := elements;
      ghost var k := 0;
      while true
        invariant Valid() && Traced() && 0 <= k <= |all| && elements == all[k..] && deleted == Items(all[..k])
        decreases |all| - k
      {
        ghost var rest := elements;
        var item := RemoveHead();
        if item.None? {
          break;
        }
        NextItem(all, k);
        assert rest[0] == all[k] && rest[1..] == all[k + 1..];
        deleted := deleted + [item.value];
        k := k + 1;
      }
      assert all[..k] == all;
    }
  }

  /** If packets were only added at the tail and removed from the head, then those taken out
      and those left, in this order, are those that were added, in the order they were. */
  lemma QueueIsFifo(list: SafeList)
    requires list.Traced() && forall op | op in list.history :: op.PushTail? || op.PopHead?
    ensures list.out + list.Contents() == Put(list.history)
  {
    FirstInFirstOut(Trace([], []), list.history);
  }

  /** Whatever was done, the packets taken out and those left are those that were added. */
  lemma QueueLosesNothing(list: SafeList)
    requires list.Traced()
    ensures multiset(list.out + list.Contents()) == multiset(Put(list.history))
  {
    NothingLost(Trace([], []), list.history);
    assert Line(Trace([], [])) == [];
  }

  lemma NextItem(all: seq<Element>, k: nat)
    requires k < |all|
    ensures Items(all[..k + 1]) == Items(all[..k]) + [all[k].item]
  {
  }

  // ---------- the sequence it stands for ----------

  datatype Op = PushHead(item: Item) | PushTail(item: Item) | PopHead | PopTail

  /** The queue after some operations, and what they took out, in order. */
  datatype Trace = Trace(queue: seq<Item>, out: seq<Item>)

  function Step(t: Trace, op: Op): Trace {
    match op
    case PushHead(item) => t.(queue := [item] + t.queue)
    case PushTail(item) => t.(queue := t.queue + [item])
    case PopHead => if t.queue == [] then t else Trace(t.queue[1..], t.out + [t.queue[0]])
    case PopTail =>
      var n := |t.queue| - 1;
      if n < 0 then t else Trace(t.queue[..n], t.out + [t.queue[n]])
  }

  function Run(t: Trace, ops: seq<Op>): Trace
    decreases |ops|
  {
    if ops == [] then t else Run(Step(t, ops[0]), ops[1..])
  }

  lemma {:induction false} RunSnoc(t: Trace, ops: seq<Op>, op: Op)
    ensures Run(t, ops + [op]) == Step(Run(t, ops), op)
    decreases |ops|
  {
    if ops == [] {
      assert ops + [op] == [op] && [op][1..] == [];
    } else {
      assert (ops + [op])[1..] == ops[1..] + [op];
      RunSnoc(Step(t, ops[0]), ops[1..], op);
    }
  }

  /** The packets put in, in order. */
  function Put(ops: seq<Op>): seq<Item> {
    if ops == [] then []
    else (if ops[0].PushHead? || ops[0].PushTail? then [ops[0].item] else []) + Put(ops[1..])
  }

  lemma PutSplit(ops: seq<Op>)
    requires ops != []
    ensures Put(ops) == Put([ops[0]]) + Put(ops[1..])
  {
  }

  /** What came out, and then what is left. */
  function Line(t: Trace): seq<Item> {
    t.out + t.queue
  }

  lemma StepInLine(t: Trace, op: Op)
    requires op.PushTail? || op.PopHead?
    ensures Line(Step(t, op)) == Line(t) + Put([op])
  {
    if op.PopHead? && t.queue != [] {
      assert t.queue == [t.queue[0]] + t.queue[1..];
    }
  }

  /** Adding at the tail and removing from the head is first in, first out: what came out
      and what is left, in that order, are what was there and what was put in. */
  lemma {:induction false} FirstInFirstOut(t: Trace, ops: seq<Op>)
    requires forall op | op in ops :: op.PushTail? || op.PopHead?
    ensures Line(Run(t, ops)) == Line(t) + Put(ops)
    decreases |ops|
  {
    if ops != [] {
      StepInLine(t, ops[0]);
      PutSplit(ops);
      hide Step, Line, Put;
      FirstInFirstOut(Step(t, ops[0]), ops[1..]);
    }
  }

  lemma StepKeeps(t: Trace, op: Op)
    ensures multiset(Line(Step(t, op))) == multiset(Line(t)) + multiset(Put([op]))
  {
    if op.PushHead? {
      assert Line(Step(t, op)) == t.out + ([op.item] + t.queue);
    } else if op.PopTail? {
      var n := |t.queue| - 1;
      assert n >= 0 ==> t.queue == t.queue[..n] + [t.queue[n]];
    } else {
      StepInLine(t, op);
    }
  }

  /** Under any mix of operations no packet is lost, made up or given out twice. */
  lemma {:induction false} NothingLost(t: Trace, ops: seq<Op>)
    ensures multiset(Line(Run(t, ops))) == multiset(Line(t)) + multiset(Put(ops))
    decreases |ops|
  {
    if ops != [] {
      StepKeeps(t, ops[0]);
      PutSplit(ops);
      hide Step, Line, Put;
      NothingLost(Step(t, ops[0]), ops[1..]);
    }
  }
}
