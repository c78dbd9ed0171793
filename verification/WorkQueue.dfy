/** project2/queue.c: what is done to the queue while the mutex is held. */
module WorkQueue {

  /** The queue as its users see it: the waiting sockets, the counter, the shutdown flag. */
  datatype Queue = Queue(fds: seq<int>, queued: int, down: bool)

  function Push(q: Queue, fd: int): Queue {
    q.(fds := q.fds + [fd], queued := q.queued + 1)
  }

  function Take(q: Queue): Queue
    requires q.fds != []
  {
    q.(fds := q.fds[1..], queued := q.queued - 1)
  }

  /** One round of the cleanup loop; the counter is not touched. */
  function Discard(q: Queue): Queue
    requires q.fds != []
  {
    q.(fds := q.fds[1..])
  }

  class WorkItem {
    var sockFd: int
    var next: WorkItem?

    constructor (fd: int)
      ensures sockFd == fd && next == null
    {
      sockFd, next := fd, null;
    }
  }

  class LinkedQueue {
    var head: WorkItem?
    var tail: WorkItem?
    var queuedRequests: int
    var shutdownFlag: bool
    ghost var items: seq<WorkItem>   // the linked list, front to back

    /** The nodes from head on are items. */
    ghost predicate Linked()
      reads this, items
    {
      && (forall i, j | 0 <= i < j < |items| :: items[i] != items[j])
      && (forall i | 0 <= i < |items| - 1 :: items[i].next == items[i + 1])
      && (if items == [] then head == null else head == items[0] && items[|items| - 1].next == null)
    }

    ghost predicate Valid()
      reads this, items
    {
      Linked() && tail == if items == [] then null else items[|items| - 1]
    }

    ghost function Fds(): (s: seq<int>)
      reads this, items
      ensures |s| == |items|
    {
      seq(|items|, i requires 0 <= i < |items| reads this, items => items[i].sockFd)
    }

    ghost function State(): Queue
      reads this, items
    {
      Queue(Fds(), queuedRequests, shutdownFlag)
    }

    /** queue_init */
    constructor ()
      ensures Valid() && items == [] && State() == Queue([], 0, false)
    {
      head, tail, queuedRequests, shutdownFlag, items := null, null, 0, false, [];
    }

    /** enqueue_work, from malloc to pthread_cond_signal. Without memory the socket is
        closed and the queue is left alone. */
    method Enqueue(fd: int, memory: bool) returns (closed: bool)
      requires Valid()
      modifies this, items
      ensures Valid() && fresh(set x | x in items && x !in old(items))
      ensures closed == !memory
      ensures State() == if memory then Push(old(State()), fd) else old(State())
      ensures Fds() == if memory then old(Fds()) + [fd] else old(Fds())
      ensures queuedRequests == old(queuedRequests) + (if memory then 1 else 0) && shutdownFlag == old(shutdownFlag)
    {
      if !memory {
        return true;
      }
      var item := new WorkItem(fd);
      if tail == null {
        head, tail := item, item;
      } else {
        tail.next := item;
        tail := item;
      }
      queuedRequests := queuedRequests + 1;
      items := items + [item];
      closed := false;
    }

    /** dequeue_work, once the wait loop is over: -1 after a shutdown, else the first socket. */
    method Dequeue() returns (fd: int)
      requires Valid() && (items != [] || shutdownFlag)
      modifies this
      ensures Valid() && (forall x | x in items :: x in old(items))
      ensures old(items) == [] ==> fd == -1 && State() == old(State())
      ensures old(items) != [] ==> fd == old(Fds())[0] && State() == Take(old(State()))
      ensures old(items) != [] ==>
        Fds() == old(Fds())[1..] && queuedRequests == old(queuedRequests) - 1 && shutdownFlag == old(shutdownFlag)
    {
      if shutdownFlag && head == null {
        return -1;
      }
      var item := head;
      head := item.next;
      if head == null {
        tail := null;
      }
      queuedRequests := queuedRequests - 1;
      fd := item.sockFd;
      items := items[1..];
    }

    /** queue_shutdown, before the broadcast */
    method Shutdown()
      requires Valid()
      modifies this`shutdownFlag
      ensures Valid() && State() == old(State()).(down := true)
    {
      shutdownFlag := true;
    }

    /** queue_length */
    method Length() returns (count: int)
      ensures count == State().queued
    {
      count := queuedRequests;
    }

    /** queue_cleanup: every waiting socket is closed, in order. */
    method Cleanup() returns (closed: seq<int>)
      requires Valid()
      modifies this
      ensures Valid() && closed == old(Fds())
      ensures State() == old(State()).(fds := [])
    {
      closed := [];
      while head != null
        invariant Linked() && |closed| <= |old(items)| && items == old(items)[|closed|..]
        invariant closed == old(Fds())[..|closed|]
        invariant queuedRequests == old(queuedRequests) && shutdownFlag == old(shutdownFlag)
        decreases |items|
      {
        var temp := head;
        head := head.next;
        closed := closed + [temp.sockFd];
        items := items[1..];
      }
      tail := null;
    }
  }
}
