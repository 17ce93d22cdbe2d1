/**
 The linked work queue (src/queue.c).  Each method is one critical section of
 the queue mutex; what happens between them is the subject of `Shutdown`.
 */
module WorkQueue {
  import opened Wrappers

  /** The queue as its users see it: the waiting items, how many accepted items are not
      done yet, and whether it has been closed. */
  datatype Queue<T> = Queue(items: seq<T>, unfinished: nat, closed: bool) {

    /** A push is refused once the queue is closed. */
    function Push(x: T): Queue<T> {
      if closed then this else Queue(items + [x], unfinished + 1, false)
    }

    function Pop(): Queue<T>
      requires items != []
    {
      this.(items := items[1..])
    }

    function TaskDone(): Queue<T> {
      if unfinished > 0 then this.(unfinished := unfinished - 1) else this
    }
  }

  class Node<T> {
    const data: T
    var next: Node?<T>

    constructor (data: T)
      ensures this.data == data && next == null
    {
      this.data, next := data, null;
    }
  }

  class LinkedQueue<T> {
    var head: Node?<T>
    var tail: Node?<T>
    var size: nat
    var unfinished: nat
    var closed: bool
    ghost var spine: seq<Node<T>>

    /** `spine` is the chain from `head` to `tail`. */
    ghost predicate Valid()
      reads this, spine
    {
      && size == |spine|
      && (head == null <==> spine == []) && (tail == null <==> spine == [])
      && (spine != [] ==> head == spine[0] && tail == spine[|spine| - 1])
      && (forall i :: 0 <= i < |spine| - 1 ==> spine[i].next == spine[i + 1])
      && (spine != [] ==> spine[|spine| - 1].next == null)
      && forall i, j :: 0 <= i < j < |spine| ==> spine[i] != spine[j]
    }

    ghost function Abstract(): Queue<T>
      reads this, spine
    {
      Queue(DataOf(spine), unfinished, closed)
    }

    constructor ()
      ensures Valid() && Abstract() == Queue([], 0, false) && fresh(spine)
    {
      head, tail, size, unfinished, closed, spine := null, null, 0, 0, false, [];
    }

    method Push(x: T) returns (accepted: bool)
      requires Valid()
      modifies this, spine
      ensures Valid() && accepted == !old(closed)
      ensures Abstract() == old(Abstract()).Push(x)
      ensures size == if accepted then old(size) + 1 else old(size)
      ensures forall n :: n in spine ==> n in old(spine) || fresh(n)
    {
      var node := new Node(x);
      if closed {
        return false;
      }
      if tail == null {
        head := node;
      } else {
        tail.next := node;
      }
      tail := node;
      size := size + 1;
      unfinished := unfinished + 1;
      spine := spine + [node];
      return true;
    }

    /** The part of `syseba_queue_pop` after the wait.  `None` stands for the null pointer: nothing is there, or the
        wait timed out, in which case the list is not looked at again. */
    method Pop(timedOut: bool) returns (x: Option<T>)
      requires Valid()
      modifies this
      ensures Valid() && (x.None? <==> timedOut || old(Abstract()).items == [])
      ensures x.None? ==> Abstract() == old(Abstract()) && size == old(size) && spine == old(spine)
      ensures x.Some? ==> x.value == old(Abstract()).items[0] && Abstract() == old(Abstract()).Pop()
      ensures x.Some? ==> size == old(size) - 1 && spine == old(spine)[1..]
    {
      if timedOut || head == null {
        return None;
      }
      var node := head;
      assert |spine| > 1 ==> spine[0].next == spine[1];
      head := node.next;
      if head == null {
        tail := null;
      }
      size := size - 1;
      ghost var before := spine;
      spine := spine[1..];
      assert forall i :: 0 <= i < |spine| ==> spine[i] == before[i + 1];
      return Some(node.data);
    }

    method TaskDone() returns (drained: bool)
      requires Valid()
      modifies `unfinished
      ensures spine == old(spine)
      ensures Valid() && Abstract() == old(Abstract()).TaskDone()
      ensures drained == (unfinished == 0)
    {
      if unfinished > 0 {
        unfinished := unfinished - 1;
      }
      return unfinished == 0;
    }

    method Close()
      requires Valid()
      modifies `closed
      ensures Valid() && Abstract() == old(Abstract()).(closed := true)
    {
      closed := true;
    }
  }

  ghost function DataOf<T>(spine: seq<Node<T>>): (items: seq<T>)
    ensures |items| == |spine| && forall i :: 0 <= i < |spine| ==> items[i] == spine[i].data
  {
    seq(|spine|, i requires 0 <= i < |spine| => spine[i].data)
  }
}
